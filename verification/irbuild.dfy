/** The IR builder's name bookkeeping (`LLVMGenerator`): a symbol stack and
    a constant stack pushed and popped together, scalar declarations that
    bind names in the innermost tables (folding the initialiser of every
    constant and of every global variable), blocks, and function
    definitions. The IR values themselves are built by a factory that is
    not part of this model; they are represented by what identifies them. */
module IrBuild {
  import opened Base
  import opened Int32
  import opened Ast
  import Scopes
  import opened ConstFold

  /** What a name is bound to in the symbol tables. */
  datatype Value =
    | LibraryFunction(name: string)
    | Function(name: string)
    | GlobalVar(name: string, isConst: bool, init: Word)
    | LocalVar(name: string, isConst: bool)

  /** The builder's state: the two stacks (innermost last) and whether it
      is outside every function. */
  datatype Gen = Gen(syms: Scopes.Stack<string, Value>, consts: Consts, isGlobal: bool)

  /** Both stacks have at least the global table. */
  predicate Open(g: Gen)
  {
    |g.syms| > 0 && |g.consts| > 0
  }

  /** Both stacks have the same depth. */
  predicate Paired(g: Gen)
  {
    |g.syms| == |g.consts|
  }

  /** `getValue`: the innermost binding, or null. */
  function GetValue(g: Gen, name: string): Option<Value>
  {
    Scopes.Find(g.syms, name)
  }

  function AddSymbol(g: Gen, name: string, v: Value): (r: Gen)
    requires Open(g)
    ensures Open(r) && r.consts == g.consts && r.isGlobal == g.isGlobal
    ensures KeepsOuter(g, r)
  {
    g.(syms := Scopes.Add(g.syms, name, v))
  }

  /** `addConst`; a null folded value is stored as null. */
  function AddConst(g: Gen, name: string, v: Option<Word>): (r: Gen)
    requires Open(g)
    ensures Open(r) && r.syms == g.syms && r.isGlobal == g.isGlobal
    ensures KeepsOuter(g, r)
  {
    g.(consts := Scopes.Add(g.consts, name, v))
  }

  /** `addSymbolAndConstTable` */
  function PushTables(g: Gen): (r: Gen)
    ensures Open(r) && (Paired(g) <==> Paired(r))
    ensures |r.syms| == |g.syms| + 1 && |r.consts| == |g.consts| + 1
    ensures r.syms[..|g.syms|] == g.syms && r.consts[..|g.consts|] == g.consts
  {
    Gen(Scopes.Push(g.syms), Scopes.Push(g.consts), g.isGlobal)
  }

  /** `removeSymbolAndConstTable` */
  function PopTables(g: Gen): (r: Gen)
    requires Open(g)
    ensures Paired(g) <==> Paired(r)
  {
    Gen(Scopes.Pop(g.syms), Scopes.Pop(g.consts), g.isGlobal)
  }

  /** Only the innermost tables may differ: depths, outer tables and the
      global flag are as before. */
  predicate KeepsOuter(g: Gen, h: Gen)
    requires Open(g)
  {
    |h.syms| == |g.syms| && |h.consts| == |g.consts| && h.isGlobal == g.isGlobal
    && h.syms[..|g.syms| - 1] == g.syms[..|g.syms| - 1]
    && h.consts[..|g.consts| - 1] == g.consts[..|g.consts| - 1]
  }

  lemma KeepsOuterTrans(g: Gen, h: Gen, k: Gen)
    requires Open(g) && KeepsOuter(g, h) && Open(h) && KeepsOuter(h, k)
    ensures KeepsOuter(g, k)
  {
  }

  // ---------------------------------------------------------------------
  // The start of `visitCompUnit`

  /** One table pair holding the four library functions. */
  function Start(): (g: Gen)
    ensures Open(g) && Paired(g) && |g.syms| == 1 && g.isGlobal
    ensures forall f :: f in LibraryNames ==> GetValue(g, f) == Some(LibraryFunction(f))
    ensures forall x :: GetValue(g, x).Some? ==> x in LibraryNames
  {
    var t := map f | f in LibraryNames :: LibraryFunction(f);
    assert forall x :: Scopes.Find([t], x) == if x in t then Some(t[x]) else None by {
      forall x ensures Scopes.Find([t], x) == if x in t then Some(t[x]) else None {
        assert [t][..0] == [];
      }
    }
    Gen([t], [map[]], true)
  }

  const LibraryNames: set<string> := {"getint", "putint", "putch", "putstr"}

  // ---------------------------------------------------------------------
  // Declarations and blocks

  /** A scalar definition; one with array dimensions is not lowered. */
  datatype Def =
    | ConstDef(name: string, dims: nat, init: AddExp)
    | VarDef(name: string, dims: nat, varInit: Option<AddExp>)

  /** A block item: a declaration, a nested block, or any other statement
      (which reads the tables but never writes them). */
  datatype Item = Decl(defs: seq<Def>) | Block(items: seq<Item>) | Stmt

  /** The folded value of a constant expression, as `visitConstExp` leaves
      it in `saveValue`. */
  function FoldConst(c: Consts, e: AddExp): Outcome<Option<Word>>
  {
    match VisitExp(c, e, Fold(None, Other))
    case Ok(f) => Ok(f.save)
    case Thrown(x) => Thrown(x)
  }

  /** `visitConstDef` / `visitVarDef` for one definition. */
  function VisitDef(g: Gen, d: Def): (r: Outcome<Gen>)
    requires Open(g)
    ensures r.Ok? ==> Open(r.value) && KeepsOuter(g, r.value)
  {
    if d.dims > 0 then Ok(g)
    else match d
      case ConstDef(name, _, init) =>
        (match FoldConst(g.consts, init)
         case Thrown(x) => Thrown(x)
         case Ok(v) =>
           var g1 := AddConst(g, name, v);
           Ok(AddSymbol(g1, name, if g.isGlobal then GlobalVar(name, true, OrZero(v)) else LocalVar(name, true))))
      case VarDef(name, _, init) =>
        if !g.isGlobal then Ok(AddSymbol(g, name, LocalVar(name, false)))
        else if init.None? then Ok(AddSymbol(g, name, GlobalVar(name, false, 0)))
        else
          (match FoldConst(g.consts, init.value)
           case Thrown(x) => Thrown(x)
           case Ok(v) => Ok(AddSymbol(g, name, GlobalVar(name, false, OrZero(v)))))
  }

  function VisitDefs(g: Gen, ds: seq<Def>): (r: Outcome<Gen>)
    requires Open(g)
    ensures r.Ok? ==> Open(r.value) && KeepsOuter(g, r.value)
    decreases |ds|
  {
    if |ds| == 0 then Ok(g)
    else match VisitDef(g, ds[0])
      case Thrown(x) => Thrown(x)
      case Ok(g1) =>
        var r := VisitDefs(g1, ds[1..]);
        KeepsOuterTrans(g, g1, if r.Ok? then r.value else g1);
        r
  }

  /** `visitBlockItem`; a nested block statement pushes a table pair,
      visits its items and pops the pair, so it gives back exactly the
      tables it found. */
  function VisitItem(g: Gen, it: Item): (r: Outcome<Gen>)
    requires Open(g)
    ensures r.Ok? ==> Open(r.value) && KeepsOuter(g, r.value)
    ensures r.Ok? && it.Block? ==> r.value == g
    decreases it, 1
  {
    match it
    case Decl(ds) => VisitDefs(g, ds)
    case Block(items) =>
      var p := PushTables(g);
      (match VisitItems(p, items)
       case Thrown(x) => Thrown(x)
       case Ok(h) => Ok(PopTables(h)))
    case Stmt => Ok(g)
  }

  /** `visitBlock`: the items in order, in the current tables. */
  function VisitItems(g: Gen, items: seq<Item>): (r: Outcome<Gen>)
    requires Open(g)
    ensures r.Ok? ==> Open(r.value) && KeepsOuter(g, r.value)
    decreases items, 0
  {
    if |items| == 0 then Ok(g)
    else match VisitItem(g, items[0])
      case Thrown(x) => Thrown(x)
      case Ok(g1) =>
        var r := VisitItems(g1, items[1..]);
        KeepsOuterTrans(g, g1, if r.Ok? then r.value else g1);
        r
  }

  /** A function definition (or `main`, with no parameters). */
  datatype FuncDef = FuncDef(name: string, params: seq<string>, body: seq<Item>)

  /** `visitFuncDef`: bind the function in the current table, push a pair
      that binds it again together with its parameters, visit the body in
      that pair, pop it, and return to global mode. */
  function VisitFuncDef(g: Gen, f: FuncDef): (r: Outcome<Gen>)
    requires Open(g)
    ensures r.Ok? ==> r.value.isGlobal && r.value.consts == g.consts
    ensures r.Ok? ==> r.value.syms == Scopes.Add(g.syms, f.name, Function(f.name))
  {
    var g1 := AddSymbol(g.(isGlobal := false), f.name, Function(f.name));
    var p := AddSymbol(PushTables(g1), f.name, Function(f.name));
    var q := AddParams(p, f.params);
    match VisitItems(q, f.body)
    case Thrown(x) => Thrown(x)
    case Ok(h) => Ok(PopTables(h).(isGlobal := true))
  }

  /** The parameters, each a local variable in the function's table. */
  function AddParams(g: Gen, params: seq<string>): (r: Gen)
    requires Open(g)
    ensures Open(r) && KeepsOuter(g, r) && r.consts == g.consts
    decreases |params|
  {
    if |params| == 0 then g
    else
      var g1 := AddSymbol(g, params[0], LocalVar(params[0], false));
      var r := AddParams(g1, params[1..]);
      KeepsOuterTrans(g, g1, r);
      r
  }

  /** `visitCompUnit` up to the functions: the global declarations, then
      the functions (with `main` as the last one). */
  function VisitCompUnit(decls: seq<Def>, funcs: seq<FuncDef>): (r: Outcome<Gen>)
    ensures r.Ok? ==> Open(r.value) && Paired(r.value) && |r.value.syms| == 1 && r.value.isGlobal
  {
    match VisitDefs(Start(), decls)
    case Thrown(x) => Thrown(x)
    case Ok(g) => VisitFuncDefs(g, funcs)
  }

  function VisitFuncDefs(g: Gen, funcs: seq<FuncDef>): (r: Outcome<Gen>)
    requires Open(g)
    ensures r.Ok? ==> Open(r.value) && |r.value.syms| == |g.syms| && r.value.consts == g.consts
    ensures r.Ok? && g.isGlobal ==> r.value.isGlobal
    decreases |funcs|
  {
    if |funcs| == 0 then Ok(g)
    else match VisitFuncDef(g, funcs[0])
      case Thrown(x) => Thrown(x)
      case Ok(g1) => VisitFuncDefs(g1, funcs[1..])
  }

  // ---------------------------------------------------------------------
  // Properties

  /** `getValue` misses exactly when no table binds the name, and a hit is
      the binding of the innermost table that has it. */
  lemma GetValueLookup(g: Gen, name: string, i: int)
    ensures GetValue(g, name).None? <==> forall j :: 0 <= j < |g.syms| ==> name !in g.syms[j]
    ensures 0 <= i < |g.syms| && Scopes.InnermostAt(g.syms, i, name) ==> GetValue(g, name) == Some(g.syms[i][name])
  {
    Scopes.FindMiss(g.syms, name);
    if 0 <= i < |g.syms| && Scopes.InnermostAt(g.syms, i, name) {
      Scopes.FindInnermost(g.syms, name, i);
    }
  }

  /** A global scalar variable is bound to a global whose initial value is
      its folded initialiser (null as 0), or 0 without one; a failure of
      the fold is the failure of the definition. */
  lemma GlobalVarInit(g: Gen, name: string, init: Option<AddExp>)
    requires Open(g) && g.isGlobal
    ensures init.None? ==>
      VisitDef(g, VarDef(name, 0, init)).Ok? &&
      GetValue(VisitDef(g, VarDef(name, 0, init)).value, name) == Some(GlobalVar(name, false, 0))
    ensures init.Some? ==>
      match EvalExp(g.consts, init.value)
      case Thrown(x) => VisitDef(g, VarDef(name, 0, init)) == Thrown(x)
      case Ok(v) =>
        VisitDef(g, VarDef(name, 0, init)).Ok? &&
        GetValue(VisitDef(g, VarDef(name, 0, init)).value, name) == Some(GlobalVar(name, false, OrZero(v)))
  {
    if init.Some? {
      ExpAgrees(g.consts, init.value, Fold(None, Other));
    }
    var r := VisitDef(g, VarDef(name, 0, init));
    if r.Ok? {
      Scopes.AddThenFind(g.syms, name, r.value.syms[|g.syms| - 1][name], name);
    }
  }

  /** A scalar constant reads back as its folded value through `getConst`
      (null stays null) and is bound to a constant global or local. */
  lemma ConstDefBinds(g: Gen, name: string, init: AddExp)
    requires Open(g)
    ensures
      match EvalExp(g.consts, init)
      case Thrown(x) => VisitDef(g, ConstDef(name, 0, init)) == Thrown(x)
      case Ok(v) =>
        var r := VisitDef(g, ConstDef(name, 0, init));
        r.Ok? && GetConst(r.value.consts, name) == v &&
        GetValue(r.value, name) == Some(if g.isGlobal then GlobalVar(name, true, OrZero(v)) else LocalVar(name, true))
  {
    ExpAgrees(g.consts, init, Fold(None, Other));
    var r := VisitDef(g, ConstDef(name, 0, init));
    if r.Ok? {
      var v := r.value.consts[|g.consts| - 1][name];
      Scopes.AddThenFind(g.consts, name, v, name);
      Scopes.AddThenFind(g.syms, name, r.value.syms[|g.syms| - 1][name], name);
    }
  }

  /** A definition binds only its own name: every other name reads as
      before, in both stacks. */
  lemma DefTouchesOnlyItsName(g: Gen, d: Def, other: string)
    requires Open(g) && other != d.name && VisitDef(g, d).Ok?
    ensures GetValue(VisitDef(g, d).value, other) == GetValue(g, other)
    ensures Scopes.Find(VisitDef(g, d).value.consts, other) == Scopes.Find(g.consts, other)
  {
    var r := VisitDef(g, d).value;
    if d.dims == 0 {
      Scopes.AddThenFind(g.syms, d.name, r.syms[|g.syms| - 1][d.name], other);
      if d.ConstDef? {
        Scopes.AddThenFind(g.consts, d.name, r.consts[|g.consts| - 1][d.name], other);
      }
    }
  }
}
