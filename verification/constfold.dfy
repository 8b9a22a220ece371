/** Constant folding in the IR builder: `calculate`, `Integer.parseInt` of a
    number literal, and the const-context path of the expression visitor,
    which threads a pending value (`saveValue`) and a pending operator
    (`saveOp`) through the right-recursive view of each operand list. */
module ConstFold {
  import opened Base
  import opened Int32
  import opened Ast
  import Scopes

  /** The Java exceptions folding can raise. */
  datatype Exc = ArithmeticException | NullPointerException | NumberFormatException

  /** A Java computation either returns a value or throws. */
  datatype Outcome<+T> = Ok(value: T) | Thrown(exc: Exc)

  /** The IR operators `calculate` distinguishes; `Other` stands for every
      other one. */
  datatype Operator = Add | Sub | Mul | Div | Mod | Other

  // ---------------------------------------------------------------------
  // calculate

  /** Java `/` on ints: truncating division, where only MIN_VALUE / -1
      overflows, back to MIN_VALUE. */
  function JavaDiv(a: Word, b: Word): (q: Word)
    requires b != 0
    ensures !(a == -Half && b == -1) ==>
      Abs(a - b * q) < Abs(b) && (a - b * q == 0 || (a - b * q < 0 <==> a < 0))
    ensures a == -Half && b == -1 ==> q == -Half
  {
    if a == -Half && b == -1 then -0x8000_0000
    else
      var q := TDiv(a, b);
      DivBound(a, b, q);
      q
  }

  /** Java `%` on ints: the remainder of the truncating division, smaller
      than the divisor and carrying the dividend's sign. */
  function JavaRem(a: Word, b: Word): (m: Word)
    requires b != 0
    ensures Abs(m) < Abs(b) && (m == 0 || (m < 0 <==> a < 0))
  {
    a - b * TDiv(a, b)
  }

  /** Java `+`, `-` and `*` on ints: the word congruent to the exact
      result modulo 2^32, which is the exact result when that fits. */
  function WrapTo(x: int): (w: Word)
    ensures (w - x) % Modulus == 0
    ensures IsWord(x) ==> w == x
  {
    WrapMod(x);
    Wrap(x)
  }

  /** `calculate(op, a, b)` on Java ints. */
  function Calculate(op: Operator, a: Word, b: Word): (r: Outcome<Word>)
    ensures r.Thrown? <==> (op == Div || op == Mod) && b == 0
    ensures r.Thrown? ==> r.exc == ArithmeticException
    ensures op == Add ==> r.Ok? && (r.value - (a + b)) % Modulus == 0
    ensures op == Sub ==> r.Ok? && (r.value - (a - b)) % Modulus == 0
    ensures op == Mul ==> r.Ok? && (r.value - a * b) % Modulus == 0
    ensures op == Add && IsWord(a + b) ==> r == Ok(a + b)
    ensures op == Sub && IsWord(a - b) ==> r == Ok(a - b)
    ensures op == Mul && IsWord(a * b) ==> r == Ok(a * b)
    ensures op == Div && b != 0 && !(a == -Half && b == -1) ==>
      Abs(a - b * r.value) < Abs(b) && (a - b * r.value == 0 || (a - b * r.value < 0 <==> a < 0))
    ensures op == Div && a == -Half && b == -1 ==> r == Ok(-Half)
    ensures op == Mod && b != 0 ==> Abs(r.value) < Abs(b) && (r.value == 0 || (r.value < 0 <==> a < 0))
    ensures op == Other ==> r == Ok(0)
  {
    match op
    case Add => Ok(WrapTo(a + b))
    case Sub => Ok(WrapTo(a - b))
    case Mul => Ok(WrapTo(a * b))
    case Div => if b == 0 then Thrown(ArithmeticException) else Ok(JavaDiv(a, b))
    case Mod => if b == 0 then Thrown(ArithmeticException) else Ok(JavaRem(a, b))
    case Other => Ok(0)
  }

  /** Quotient and remainder recompose the dividend, as Java promises for
      `(a / b) * b + a % b`; the one overflowing quotient leaves remainder 0. */
  lemma {:induction false} DivModIdentity(a: Word, b: Word)
    requires b != 0
    ensures !(a == -Half && b == -1) ==>
      Calculate(Div, a, b).value * b + Calculate(Mod, a, b).value == a
    ensures a == -Half && b == -1 ==> Calculate(Mod, a, b) == Ok(0)
  {
    if a == -Half && b == -1 {
      assert TDiv(a, b) == Half;
    }
  }

  /** A truncating quotient of a word is a word, unless it is
      MIN_VALUE / -1. */
  lemma {:induction false} DivBound(a: int, b: int, q: int)
    requires IsWord(a) && b != 0 && !(a == -Half && b == -1)
    requires Abs(a - b * q) < Abs(b)
    requires a - b * q == 0 || (a - b * q < 0 <==> a < 0)
    ensures IsWord(q)
  {
  }

  // ---------------------------------------------------------------------
  // Decimal text: Integer.parseInt and Integer.toString

  predicate IsDigit(ch: char) { '0' <= ch <= '9' }

  predicate AllDigits(s: string) { forall i :: 0 <= i < |s| ==> IsDigit(s[i]) }

  function DigitChar(d: int): (ch: char)
    requires 0 <= d < 10
    ensures IsDigit(ch)
  {
    ('0' as int + d) as char
  }

  /** The value of a string of decimal digits, most significant first. */
  function DecimalValue(s: string): nat
    requires AllDigits(s)
    decreases |s|
  {
    if |s| == 0 then 0
    else
      assert IsDigit(s[|s| - 1]);
      DecimalValue(s[..|s| - 1]) * 10 + (s[|s| - 1] as int - '0' as int)
  }

  /** The shortest decimal spelling of a natural number. */
  function NatToString(n: nat): (s: string)
    ensures |s| >= 1 && AllDigits(s)
    decreases n
  {
    if n < 10 then [DigitChar(n)] else NatToString(n / 10) + [DigitChar(n % 10)]
  }

  /** `Integer.toString`: a minus sign for negative values, then digits. */
  function IntToString(x: int): (s: string)
    ensures forall i :: 0 <= i < |s| ==> s[i] != ';'
  {
    if x < 0 then "-" + NatToString(-x) else NatToString(x)
  }

  /** `Integer.parseInt`: an optional sign and at least one decimal digit,
      whose value must be a Java int. */
  function ParseInt(s: string): (r: Outcome<Word>)
    ensures r.Ok? ==> |s| >= 1
    ensures r.Thrown? ==> r.exc == NumberFormatException
  {
    if |s| >= 2 && s[0] == '-' && AllDigits(s[1..]) && DecimalValue(s[1..]) <= Half then
      Ok(-(DecimalValue(s[1..]) as int))
    else if |s| >= 2 && s[0] == '+' && AllDigits(s[1..]) && DecimalValue(s[1..]) < Half then
      Ok(DecimalValue(s[1..]))
    else if |s| >= 1 && AllDigits(s) && DecimalValue(s) < Half then
      Ok(DecimalValue(s))
    else
      Thrown(NumberFormatException)
  }

  /** Reading back the spelling of a natural number gives the number. */
  lemma {:induction false} DecimalRoundTrip(n: nat)
    ensures DecimalValue(NatToString(n)) == n
    decreases n
  {
    if n >= 10 {
      var s := NatToString(n);
      assert s[..|s| - 1] == NatToString(n / 10);
      DecimalRoundTrip(n / 10);
    }
  }

  /** `Integer.parseInt(Integer.toString(x)) == x` for every Java int. */
  lemma {:induction false} ParseIntToString(x: Word)
    ensures ParseInt(IntToString(x)) == Ok(x)
  {
    var s := IntToString(x);
    if x < 0 {
      assert s[1..] == NatToString(-(x as int));
      DecimalRoundTrip(-(x as int));
    } else {
      DecimalRoundTrip(x);
      assert s[0] != '-' && s[0] != '+';
    }
  }

  // ---------------------------------------------------------------------
  // The constant table and getConst

  /** Constant tables, innermost last; a constant may be bound to null. */
  type Consts = Scopes.Stack<string, Option<Word>>

  /** `getConst`: the innermost binding, or 0 when no table has the name. */
  function GetConst(c: Consts, name: string): Option<Word>
  {
    match Scopes.Find(c, name)
    case None => Some(0)
    case Some(v) => v
  }

  /** A name no table has reads as 0; otherwise the innermost binding. */
  lemma {:induction false} GetConstLookup(c: Consts, name: string, i: int)
    ensures (forall j :: 0 <= j < |c| ==> name !in c[j]) ==> GetConst(c, name) == Some(0)
    ensures 0 <= i < |c| && Scopes.InnermostAt(c, i, name) ==> GetConst(c, name) == c[i][name]
  {
    Scopes.FindMiss(c, name);
    if 0 <= i < |c| && Scopes.InnermostAt(c, i, name) {
      Scopes.FindInnermost(c, name, i);
    }
  }

  // ---------------------------------------------------------------------
  // The visitor in const context

  /** `saveValue` and `saveOp` */
  datatype Fold = Fold(save: Option<Word>, op: Operator)

  function AddOp(t: Token): Operator { if t.kind == PLUS then Add else Sub }

  function MulOp(t: Token): Operator
  {
    if t.kind == MULT then Mul else if t.kind == DIV then Div else Mod
  }

  /** `if (value != null) saveValue = calculate(op, value, saveValue)`:
      without a pending value the new one stands; with one, a null new
      value fails to unbox. */
  function Combine(pending: Option<Word>, op: Operator, v: Option<Word>): Outcome<Option<Word>>
  {
    if pending.None? then Ok(v)
    else if v.None? then Thrown(NullPointerException)
    else
      match Calculate(op, pending.value, v.value)
      case Ok(x) => Ok(Some(x))
      case Thrown(e) => Thrown(e)
  }

  function ArgCount(u: UnaryExp): nat
  {
    if u.Call? && u.params.RParams? then |u.params.exps| else 0
  }

  /** `visitExp` / `visitConstExp`: clear `saveValue`, then visit the sum. */
  function VisitExp(c: Consts, e: AddExp, s: Fold): Outcome<Fold>
    decreases e, |e.operands| + 1
  {
    VisitAdd(c, e, 0, s.(save := None))
  }

  /** `visitAddExp` at the node whose first operand is `operands[k]`; the
      node has a tail when another operand follows, joined by `ops[k]`. A
      missing operand or operator is a null child. */
  function VisitAdd(c: Consts, e: AddExp, k: nat, s: Fold): Outcome<Fold>
    decreases e, |e.operands| - k
  {
    if k >= |e.operands| then Thrown(NullPointerException)
    else
      match VisitMul(c, e.operands[k], 0, s.(save := None))
      case Thrown(x) => Thrown(x)
      case Ok(s1) =>
        match Combine(s.save, s.op, s1.save)
        case Thrown(x) => Thrown(x)
        case Ok(v) =>
          if k + 1 == |e.operands| then Ok(s1.(save := v))
          else if k >= |e.ops| then Thrown(NullPointerException)
          else VisitAdd(c, e, k + 1, Fold(v, AddOp(e.ops[k])))
  }

  /** `visitMulExp`, organised as `VisitAdd`. */
  function VisitMul(c: Consts, m: MulExp, k: nat, s: Fold): Outcome<Fold>
    decreases m, |m.operands| - k
  {
    if k >= |m.operands| then Thrown(NullPointerException)
    else
      match VisitUnary(c, m.operands[k], s.(save := None))
      case Thrown(x) => Thrown(x)
      case Ok(s1) =>
        match Combine(s.save, s.op, s1.save)
        case Thrown(x) => Thrown(x)
        case Ok(v) =>
          if k + 1 == |m.operands| then Ok(s1.(save := v))
          else if k >= |m.ops| then Thrown(NullPointerException)
          else VisitMul(c, m, k + 1, Fold(v, MulOp(m.ops[k])))
  }

  /** `visitUnaryExp`: a call visits its arguments (each as an `Exp`) and
      folds nothing itself; `-` negates with wrap-around; `+` and `!` leave
      the folded value as it is. */
  function VisitUnary(c: Consts, u: UnaryExp, s: Fold): Outcome<Fold>
    decreases u, ArgCount(u) + 1
  {
    match u
    case Primary(p) => VisitPrimary(c, p, s)
    case Call(_, _, params, _) => if params.NoParams? then Ok(s) else VisitArgs(c, u, 0, s)
    case Unary(op, inner) =>
      match VisitUnary(c, inner, s)
      case Thrown(x) => Thrown(x)
      case Ok(s1) =>
        if op.kind != MINU then Ok(s1)
        else if s1.save.None? then Thrown(NullPointerException)
        else Ok(s1.(save := Some(Wrap(-(s1.save.value as int)))))
  }

  /** `visitFuncRParams` from argument j on. */
  function VisitArgs(c: Consts, u: UnaryExp, j: nat, s: Fold): Outcome<Fold>
    requires u.Call? && u.params.RParams?
    decreases u, |u.params.exps| - j
  {
    if j >= |u.params.exps| then Ok(s)
    else
      match VisitExp(c, u.params.exps[j], s)
      case Thrown(x) => Thrown(x)
      case Ok(s1) => VisitArgs(c, u, j + 1, s1)
  }

  /** `visitPrimaryExp` and `visitNumber` */
  function VisitPrimary(c: Consts, p: PrimaryExp, s: Fold): Outcome<Fold>
    decreases p, 0
  {
    match p
    case Paren(_, e, _) => VisitExp(c, e, s)
    case LValExp(lv) => VisitLVal(c, lv, s)
    case Number(t) =>
      match ParseInt(t.content)
      case Thrown(x) => Thrown(x)
      case Ok(v) => Ok(s.(save := Some(v)))
  }

  function OrZero(v: Option<Word>): Word { if v.Some? then v.value else 0 }

  /** `visitLVal` in const context: a plain name reads `getConst(name)`; an
      indexed one reads the key `name0;i1;...;in;` spelt from the folded
      indices (null as 0). */
  function VisitLVal(c: Consts, lv: LVal, s: Fold): Outcome<Fold>
    decreases lv, |lv.indices| + 1
  {
    if |lv.indices| == 0 then Ok(s.(save := GetConst(c, lv.ident.content)))
    else
      match VisitIndices(c, lv, 0, s, lv.ident.content + "0;")
      case Thrown(x) => Thrown(x)
      case Ok(r) => Ok(r.0.(save := GetConst(c, r.1)))
  }

  function VisitIndices(c: Consts, lv: LVal, j: nat, s: Fold, key: string): Outcome<(Fold, string)>
    decreases lv, |lv.indices| - j
  {
    if j >= |lv.indices| then Ok((s, key))
    else
      match VisitExp(c, lv.indices[j], s)
      case Thrown(x) => Thrown(x)
      case Ok(s1) => VisitIndices(c, lv, j + 1, s1, key + IntToString(OrZero(s1.save)) + ";")
  }

  // ---------------------------------------------------------------------
  // Reference evaluator: each operand list folds from the left, the value
  // of the first n operands combining with the (n+1)-th

  function EvalExp(c: Consts, e: AddExp): Outcome<Option<Word>>
    decreases e, |e.operands| + 1
  {
    if |e.operands| == 0 then Thrown(NullPointerException) else EvalSum(c, e, |e.operands|)
  }

  /** The value of the first n operands of a sum. */
  function EvalSum(c: Consts, e: AddExp, n: nat): Outcome<Option<Word>>
    requires 1 <= n <= |e.operands|
    decreases e, n
  {
    if n == 1 then EvalProduct(c, e.operands[0])
    else
      match EvalSum(c, e, n - 1)
      case Thrown(x) => Thrown(x)
      case Ok(acc) =>
        if n - 2 >= |e.ops| then Thrown(NullPointerException)
        else
          match EvalProduct(c, e.operands[n - 1])
          case Thrown(x) => Thrown(x)
          case Ok(v) => Combine(acc, AddOp(e.ops[n - 2]), v)
  }

  function EvalProduct(c: Consts, m: MulExp): Outcome<Option<Word>>
    decreases m, |m.operands| + 1
  {
    if |m.operands| == 0 then Thrown(NullPointerException) else EvalFactors(c, m, |m.operands|)
  }

  /** The value of the first n operands of a product. */
  function EvalFactors(c: Consts, m: MulExp, n: nat): Outcome<Option<Word>>
    requires 1 <= n <= |m.operands|
    decreases m, n
  {
    if n == 1 then EvalUnary(c, m.operands[0])
    else
      match EvalFactors(c, m, n - 1)
      case Thrown(x) => Thrown(x)
      case Ok(acc) =>
        if n - 2 >= |m.ops| then Thrown(NullPointerException)
        else
          match EvalUnary(c, m.operands[n - 1])
          case Thrown(x) => Thrown(x)
          case Ok(v) => Combine(acc, MulOp(m.ops[n - 2]), v)
  }

  /** A call stands for the value of its last argument (null without one). */
  function EvalUnary(c: Consts, u: UnaryExp): Outcome<Option<Word>>
    decreases u, ArgCount(u) + 1
  {
    match u
    case Primary(p) => EvalPrimary(c, p)
    case Call(_, _, params, _) => if params.NoParams? then Ok(None) else EvalArgs(c, u, 0, None)
    case Unary(op, inner) =>
      match EvalUnary(c, inner)
      case Thrown(x) => Thrown(x)
      case Ok(v) =>
        if op.kind != MINU then Ok(v)
        else if v.None? then Thrown(NullPointerException)
        else Ok(Some(Wrap(-(v.value as int))))
  }

  /** The value of the last of the arguments from j on, or `last` when there
      are none left; every argument is evaluated in order. */
  function EvalArgs(c: Consts, u: UnaryExp, j: nat, last: Option<Word>): Outcome<Option<Word>>
    requires u.Call? && u.params.RParams?
    decreases u, |u.params.exps| - j
  {
    if j >= |u.params.exps| then Ok(last)
    else
      match EvalExp(c, u.params.exps[j])
      case Thrown(x) => Thrown(x)
      case Ok(v) => EvalArgs(c, u, j + 1, v)
  }

  function EvalPrimary(c: Consts, p: PrimaryExp): Outcome<Option<Word>>
    decreases p, 0
  {
    match p
    case Paren(_, e, _) => EvalExp(c, e)
    case LValExp(lv) => EvalLVal(c, lv)
    case Number(t) =>
      match ParseInt(t.content)
      case Thrown(x) => Thrown(x)
      case Ok(v) => Ok(Some(v))
  }

  function EvalLVal(c: Consts, lv: LVal): Outcome<Option<Word>>
    decreases lv, |lv.indices| + 1
  {
    if |lv.indices| == 0 then Ok(GetConst(c, lv.ident.content))
    else
      match IndexKey(c, lv, 0)
      case Thrown(x) => Thrown(x)
      case Ok(suffix) => Ok(GetConst(c, lv.ident.content + "0;" + suffix))
  }

  /** The key text the indices from j on contribute: each folded index
      (null as 0) followed by `;`. */
  function IndexKey(c: Consts, lv: LVal, j: nat): Outcome<string>
    decreases lv, |lv.indices| - j
  {
    if j >= |lv.indices| then Ok("")
    else
      match EvalExp(c, lv.indices[j])
      case Thrown(x) => Thrown(x)
      case Ok(v) =>
        match IndexKey(c, lv, j + 1)
        case Thrown(x) => Thrown(x)
        case Ok(rest) => Ok(IntToString(OrZero(v)) + ";" + rest)
  }

  // ---------------------------------------------------------------------
  // The visitor computes the reference value

  /** The visitor's `saveValue` is the reference value, and both throw the
      same exception. */
  predicate Agrees(o: Outcome<Fold>, r: Outcome<Option<Word>>)
  {
    match o
    case Ok(f) => r == Ok(f.save)
    case Thrown(x) => r == Thrown(x)
  }

  /** A failure in a prefix of a sum is the failure of the whole sum. */
  lemma {:induction false} SumThrows(c: Consts, e: AddExp, n: nat, m: nat)
    requires 1 <= n <= m <= |e.operands| && EvalSum(c, e, n).Thrown?
    ensures EvalSum(c, e, m) == EvalSum(c, e, n)
    decreases m
  {
    if m > n {
      SumThrows(c, e, n, m - 1);
    }
  }

  lemma {:induction false} FactorsThrow(c: Consts, m: MulExp, n: nat, k: nat)
    requires 1 <= n <= k <= |m.operands| && EvalFactors(c, m, n).Thrown?
    ensures EvalFactors(c, m, k) == EvalFactors(c, m, n)
    decreases k
  {
    if k > n {
      FactorsThrow(c, m, n, k - 1);
    }
  }

  /** Folding a constant expression: `visitExp` leaves in `saveValue` the
      left fold of the expression, or throws what the left fold throws,
      whatever state it starts from. */
  lemma {:induction false} ExpAgrees(c: Consts, e: AddExp, s: Fold)
    ensures Agrees(VisitExp(c, e, s), EvalExp(c, e))
    decreases e, |e.operands| + 1
  {
    if |e.operands| > 0 {
      AddAgrees(c, e, 0, s.(save := None));
    }
  }

  /** The visitor at operand k, holding the value of the first k operands
      and the operator before operand k, finishes with the whole sum. */
  lemma {:induction false} AddAgrees(c: Consts, e: AddExp, k: nat, s: Fold)
    requires k < |e.operands|
    requires k == 0 ==> s.save.None?
    requires k > 0 ==> k - 1 < |e.ops| && s.op == AddOp(e.ops[k - 1]) && EvalSum(c, e, k) == Ok(s.save)
    ensures Agrees(VisitAdd(c, e, k, s), EvalSum(c, e, |e.operands|))
    decreases e, |e.operands| - k, 1
  {
    AddStepIsPrefix(c, e, k, s);
    match AddStep(c, e, k, s)
    case Thrown(_) => AddFinish(c, e, k, s);
    case Ok(v) =>
      if k + 1 == |e.operands| || k >= |e.ops| {
        AddFinish(c, e, k, s);
      } else {
        AddRecurse(c, e, k, s, v);
      }
  }

  /** The step of `AddAgrees` past operand k when more operands follow. */
  lemma {:induction false} AddRecurse(c: Consts, e: AddExp, k: nat, s: Fold, v: Option<Word>)
    requires k + 1 < |e.operands| && k < |e.ops|
    requires AddStep(c, e, k, s) == Ok(v) && EvalSum(c, e, k + 1) == Ok(v)
    ensures Agrees(VisitAdd(c, e, k, s), EvalSum(c, e, |e.operands|))
    decreases e, |e.operands| - k, 0
  {
    AddAgrees(c, e, k + 1, Fold(v, AddOp(e.ops[k])));
    AddContinue(c, e, k, s);
  }

  /** What the visitor makes of operand k of a sum: the operand's product
      folded into the pending value. */
  function AddStep(c: Consts, e: AddExp, k: nat, s: Fold): Outcome<Option<Word>>
    requires k < |e.operands|
  {
    match VisitMul(c, e.operands[k], 0, s.(save := None))
    case Thrown(x) => Thrown(x)
    case Ok(s1) => Combine(s.save, s.op, s1.save)
  }

  lemma {:induction false} AddStepIsPrefix(c: Consts, e: AddExp, k: nat, s: Fold)
    requires k < |e.operands|
    requires k == 0 ==> s.save.None?
    requires k > 0 ==> k - 1 < |e.ops| && s.op == AddOp(e.ops[k - 1]) && EvalSum(c, e, k) == Ok(s.save)
    ensures EvalSum(c, e, k + 1) == AddStep(c, e, k, s)
    decreases e, |e.operands| - k - 1
  {
    ProductAgrees(c, e.operands[k], s.(save := None));
  }

  lemma {:induction false} AddFinish(c: Consts, e: AddExp, k: nat, s: Fold)
    requires k < |e.operands| && EvalSum(c, e, k + 1) == AddStep(c, e, k, s)
    requires AddStep(c, e, k, s).Thrown? || k + 1 == |e.operands| || k >= |e.ops|
    ensures Agrees(VisitAdd(c, e, k, s), EvalSum(c, e, |e.operands|))
  {
    match AddStep(c, e, k, s)
    case Thrown(x) =>
      assert VisitAdd(c, e, k, s) == Thrown(x);
      SumThrows(c, e, k + 1, |e.operands|);
    case Ok(_) =>
      if k + 1 < |e.operands| {
        assert VisitAdd(c, e, k, s) == Thrown(NullPointerException);
        SumThrows(c, e, k + 2, |e.operands|);
      }
  }

  lemma {:induction false} AddContinue(c: Consts, e: AddExp, k: nat, s: Fold)
    requires k + 1 < |e.operands| && k < |e.ops| && AddStep(c, e, k, s).Ok?
    requires Agrees(VisitAdd(c, e, k + 1, Fold(AddStep(c, e, k, s).value, AddOp(e.ops[k]))),
                    EvalSum(c, e, |e.operands|))
    ensures Agrees(VisitAdd(c, e, k, s), EvalSum(c, e, |e.operands|))
  {
  }

  /** `visitMulExp` from its first operand computes the product's value. */
  lemma {:induction false} ProductAgrees(c: Consts, m: MulExp, s: Fold)
    requires s.save.None?
    ensures Agrees(VisitMul(c, m, 0, s), EvalProduct(c, m))
    decreases m, |m.operands| + 1
  {
    if |m.operands| > 0 {
      MulAgrees(c, m, 0, s);
    }
  }

  lemma {:induction false} MulAgrees(c: Consts, m: MulExp, k: nat, s: Fold)
    requires k < |m.operands|
    requires k == 0 ==> s.save.None?
    requires k > 0 ==> k - 1 < |m.ops| && s.op == MulOp(m.ops[k - 1]) && EvalFactors(c, m, k) == Ok(s.save)
    ensures Agrees(VisitMul(c, m, k, s), EvalFactors(c, m, |m.operands|))
    decreases m, |m.operands| - k, 1
  {
    MulStepIsPrefix(c, m, k, s);
    match MulStep(c, m, k, s)
    case Thrown(_) => MulFinish(c, m, k, s);
    case Ok(v) =>
      if k + 1 == |m.operands| || k >= |m.ops| {
        MulFinish(c, m, k, s);
      } else {
        MulRecurse(c, m, k, s, v);
      }
  }

  /** The step of `MulAgrees` past operand k when more operands follow. */
  lemma {:induction false} MulRecurse(c: Consts, m: MulExp, k: nat, s: Fold, v: Option<Word>)
    requires k + 1 < |m.operands| && k < |m.ops|
    requires MulStep(c, m, k, s) == Ok(v) && EvalFactors(c, m, k + 1) == Ok(v)
    ensures Agrees(VisitMul(c, m, k, s), EvalFactors(c, m, |m.operands|))
    decreases m, |m.operands| - k, 0
  {
    MulAgrees(c, m, k + 1, Fold(v, MulOp(m.ops[k])));
    MulContinue(c, m, k, s);
  }

  /** What the visitor makes of operand k of a product. */
  function MulStep(c: Consts, m: MulExp, k: nat, s: Fold): Outcome<Option<Word>>
    requires k < |m.operands|
  {
    match VisitUnary(c, m.operands[k], s.(save := None))
    case Thrown(x) => Thrown(x)
    case Ok(s1) => Combine(s.save, s.op, s1.save)
  }

  lemma {:induction false} MulStepIsPrefix(c: Consts, m: MulExp, k: nat, s: Fold)
    requires k < |m.operands|
    requires k == 0 ==> s.save.None?
    requires k > 0 ==> k - 1 < |m.ops| && s.op == MulOp(m.ops[k - 1]) && EvalFactors(c, m, k) == Ok(s.save)
    ensures EvalFactors(c, m, k + 1) == MulStep(c, m, k, s)
    decreases m, |m.operands| - k - 1
  {
    UnaryAgrees(c, m.operands[k], s.(save := None));
  }

  lemma {:induction false} MulFinish(c: Consts, m: MulExp, k: nat, s: Fold)
    requires k < |m.operands| && EvalFactors(c, m, k + 1) == MulStep(c, m, k, s)
    requires MulStep(c, m, k, s).Thrown? || k + 1 == |m.operands| || k >= |m.ops|
    ensures Agrees(VisitMul(c, m, k, s), EvalFactors(c, m, |m.operands|))
  {
    match MulStep(c, m, k, s)
    case Thrown(x) =>
      assert VisitMul(c, m, k, s) == Thrown(x);
      FactorsThrow(c, m, k + 1, |m.operands|);
    case Ok(_) =>
      if k + 1 < |m.operands| {
        assert VisitMul(c, m, k, s) == Thrown(NullPointerException);
        FactorsThrow(c, m, k + 2, |m.operands|);
      }
  }

  lemma {:induction false} MulContinue(c: Consts, m: MulExp, k: nat, s: Fold)
    requires k + 1 < |m.operands| && k < |m.ops| && MulStep(c, m, k, s).Ok?
    requires Agrees(VisitMul(c, m, k + 1, Fold(MulStep(c, m, k, s).value, MulOp(m.ops[k]))),
                    EvalFactors(c, m, |m.operands|))
    ensures Agrees(VisitMul(c, m, k, s), EvalFactors(c, m, |m.operands|))
  {
  }

  lemma {:induction false} UnaryAgrees(c: Consts, u: UnaryExp, s: Fold)
    requires s.save.None?
    ensures Agrees(VisitUnary(c, u, s), EvalUnary(c, u))
    decreases u, ArgCount(u) + 1
  {
    match u
    case Primary(p) => PrimaryAgrees(c, p, s);
    case Call(_, _, params, _) =>
      if params.RParams? {
        ArgsAgrees(c, u, 0, s);
      }
    case Unary(op, inner) => UnaryAgrees(c, inner, s);
  }

  lemma {:induction false} ArgsAgrees(c: Consts, u: UnaryExp, j: nat, s: Fold)
    requires u.Call? && u.params.RParams?
    ensures Agrees(VisitArgs(c, u, j, s), EvalArgs(c, u, j, s.save))
    decreases u, |u.params.exps| - j
  {
    if j < |u.params.exps| {
      var a := u.params.exps[j];
      ExpAgrees(c, a, s);
      var r := VisitExp(c, a, s);
      if r.Ok? {
        ArgsAgrees(c, u, j + 1, r.value);
      }
    }
  }

  lemma {:induction false} PrimaryAgrees(c: Consts, p: PrimaryExp, s: Fold)
    ensures Agrees(VisitPrimary(c, p, s), EvalPrimary(c, p))
    decreases p, 0
  {
    match p
    case Paren(_, e, _) => ExpAgrees(c, e, s);
    case LValExp(lv) => LValAgrees(c, lv, s);
    case Number(_) =>
  }

  lemma {:induction false} LValAgrees(c: Consts, lv: LVal, s: Fold)
    ensures Agrees(VisitLVal(c, lv, s), EvalLVal(c, lv))
    decreases lv, |lv.indices| + 1
  {
    if |lv.indices| > 0 {
      IndicesAgree(c, lv, 0, s, lv.ident.content + "0;");
    }
  }

  lemma {:induction false} AppendAssoc(a: string, b: string, d: string)
    ensures a + b + d == a + (b + d)
  {
  }

  /** One index of `IndicesAgree`: the agreement from j + 1 on carries
      back to j. */
  lemma {:induction false} IndicesStep(c: Consts, lv: LVal, j: nat, s: Fold, key: string, s1: Fold)
    requires j < |lv.indices| && VisitExp(c, lv.indices[j], s) == Ok(s1)
    requires EvalExp(c, lv.indices[j]) == Ok(s1.save)
    requires var piece := IntToString(OrZero(s1.save)) + ";";
      && (IndexKey(c, lv, j + 1).Thrown? ==> VisitIndices(c, lv, j + 1, s1, key + piece) == Thrown(IndexKey(c, lv, j + 1).exc))
      && (IndexKey(c, lv, j + 1).Ok? ==>
            VisitIndices(c, lv, j + 1, s1, key + piece).Ok? &&
            VisitIndices(c, lv, j + 1, s1, key + piece).value.1 == key + piece + IndexKey(c, lv, j + 1).value)
    ensures IndexKey(c, lv, j).Thrown? ==> VisitIndices(c, lv, j, s, key) == Thrown(IndexKey(c, lv, j).exc)
    ensures IndexKey(c, lv, j).Ok? ==>
      VisitIndices(c, lv, j, s, key).Ok? && VisitIndices(c, lv, j, s, key).value.1 == key + IndexKey(c, lv, j).value
  {
    var piece := IntToString(OrZero(s1.save)) + ";";
    assert key + IntToString(OrZero(s1.save)) + ";" == key + piece;
    assert VisitIndices(c, lv, j, s, key) == VisitIndices(c, lv, j + 1, s1, key + piece);
    match IndexKey(c, lv, j + 1)
    case Thrown(_) =>
    case Ok(rest) =>
      assert IndexKey(c, lv, j) == Ok(piece + rest);
      AppendAssoc(key, piece, rest);
  }

  /** The indices visited from j on append the reference key text. */
  lemma {:induction false} IndicesAgree(c: Consts, lv: LVal, j: nat, s: Fold, key: string)
    ensures IndexKey(c, lv, j).Thrown? ==> VisitIndices(c, lv, j, s, key) == Thrown(IndexKey(c, lv, j).exc)
    ensures IndexKey(c, lv, j).Ok? ==>
      VisitIndices(c, lv, j, s, key).Ok? && VisitIndices(c, lv, j, s, key).value.1 == key + IndexKey(c, lv, j).value
    decreases lv, |lv.indices| - j
  {
    if j < |lv.indices| {
      var a := lv.indices[j];
      ExpAgrees(c, a, s);
      match VisitExp(c, a, s)
      case Thrown(x) =>
        assert EvalExp(c, a) == Thrown(x);
      case Ok(s1) =>
        var piece := IntToString(OrZero(s1.save)) + ";";
        IndicesAgree(c, lv, j + 1, s1, key + piece);
        IndicesStep(c, lv, j, s, key, s1);
    } else {
      assert key + "" == key;
    }
  }

  // ---------------------------------------------------------------------
  // Indexed constants

  /** Every name a constant table holds is a plain identifier. */
  predicate PlainNames(c: Consts)
  {
    forall i, name :: 0 <= i < |c| && name in c[i] ==> ';' !in name
  }

  /** Array constants are never entered in the table, so an indexed l-value
      folds to 0 whenever its indices fold without an exception. */
  lemma {:induction false} IndexedReadsZero(c: Consts, lv: LVal)
    requires PlainNames(c) && |lv.indices| > 0
    ensures EvalLVal(c, lv).Ok? ==> EvalLVal(c, lv).value == Some(0)
  {
    if IndexKey(c, lv, 0).Ok? {
      var key := lv.ident.content + "0;" + IndexKey(c, lv, 0).value;
      assert key[|lv.ident.content| + 1] == ';';
      assert ';' in key;
      forall j | 0 <= j < |c| ensures key !in c[j] { }
      GetConstLookup(c, key, 0);
    }
  }
}
