/** The front end's parent-chained symbol table (`SymbolTable`): a map from
    identifiers to symbols, where a key may be bound to `null`, and an
    optional enclosing table consulted when the current one has nothing. */
module SymTab {
  import opened Base

  /** The symbol payloads: `ArraySymbol` (a scalar is an array of
      dimension 0), a function, or any other symbol kind. */
  datatype Symbol =
    | ArraySymbol(name: string, isConst: bool, dimension: nat, dimLengths: seq<int>)
    | FuncSymbol(name: string)
    | OtherSymbol(name: string)

  /** A binding to `None` models a key the Java map holds with value `null`. */
  datatype Table = Table(symbols: map<string, Option<Symbol>>, parent: Option<Table>)

  /** `new SymbolTable()` */
  const Root := Table(map[], None)

  /** `new SymbolTable(parent)` */
  function Child(parent: Table): (t: Table)
    ensures t.symbols == map[] && t.parent == Some(parent)
  {
    Table(map[], Some(parent))
  }

  /** `get`: a non-null binding in the current table, otherwise the
      parent's answer, otherwise null. */
  function Get(t: Table, x: string): Option<Symbol>
    decreases t
  {
    if x in t.symbols && t.symbols[x].Some? then t.symbols[x]
    else if t.parent.Some? then Get(t.parent.value, x)
    else None
  }

  /** `contains`: the key is present (even bound to null) somewhere. */
  function Contains(t: Table, x: string): bool
    decreases t
  {
    if x in t.symbols then true
    else if t.parent.Some? then Contains(t.parent.value, x)
    else false
  }

  /** `containsInCurrent` */
  function ContainsInCurrent(t: Table, x: string): bool
  {
    x in t.symbols
  }

  /** `put` */
  function Put(t: Table, x: string, s: Option<Symbol>): (r: Table)
    ensures r.parent == t.parent
    ensures ContainsInCurrent(r, x)
  {
    t.(symbols := t.symbols[x := s])
  }

  // ---------------------------------------------------------------------
  // The chain of tables, innermost first

  function Chain(t: Table): (c: seq<map<string, Option<Symbol>>>)
    ensures |c| >= 1 && c[0] == t.symbols
    decreases t
  {
    [t.symbols] + (if t.parent.Some? then Chain(t.parent.value) else [])
  }

  /** Table i of the chain binds x to a symbol. */
  predicate BindsAt(c: seq<map<string, Option<Symbol>>>, i: int, x: string)
    requires 0 <= i < |c|
  {
    x in c[i] && c[i][x].Some?
  }

  /** Table i is the first of the chain to bind x to a symbol. */
  predicate FirstBindsAt(c: seq<map<string, Option<Symbol>>>, i: int, x: string)
    requires 0 <= i < |c|
  {
    BindsAt(c, i, x) && forall j :: 0 <= j < i ==> !BindsAt(c, j, x)
  }

  /** `get` finds a symbol exactly when some table of the chain binds the
      key to one. */
  lemma {:induction false} GetFindsBinding(t: Table, x: string)
    ensures Get(t, x).Some? <==> exists i :: 0 <= i < |Chain(t)| && BindsAt(Chain(t), i, x)
    decreases t
  {
    if BindsAt(Chain(t), 0, x) {
      assert x in t.symbols && t.symbols[x].Some?;
      assert Get(t, x) == t.symbols[x];
      assert exists i :: 0 <= i < |Chain(t)| && BindsAt(Chain(t), i, x) by {
        assert 0 < |Chain(t)| && BindsAt(Chain(t), 0, x);
      }
    } else if t.parent.Some? {
      var p := t.parent.value;
      GetFindsBinding(p, x);
      assert Chain(t) == [t.symbols] + Chain(p);
      assert Get(t, x) == Get(p, x);
      if Get(p, x).Some? {
        var i :| 0 <= i < |Chain(p)| && BindsAt(Chain(p), i, x);
        assert BindsAt(Chain(t), i + 1, x);
      }
      if exists i :: 0 <= i < |Chain(t)| && BindsAt(Chain(t), i, x) {
        var i :| 0 <= i < |Chain(t)| && BindsAt(Chain(t), i, x);
        assert BindsAt(Chain(p), i - 1, x);
      }
    } else {
      assert Chain(t) == [t.symbols];
    }
  }

  /** What `get` returns is the binding of the first table that binds the
      key to a symbol: inner tables shadow outer ones. */
  lemma {:induction false} GetIsFirstBinding(t: Table, x: string, i: int)
    requires 0 <= i < |Chain(t)| && FirstBindsAt(Chain(t), i, x)
    ensures Get(t, x) == Chain(t)[i][x]
    decreases t
  {
    if i > 0 {
      assert !BindsAt(Chain(t), 0, x);
      var p := t.parent.value;
      assert Chain(t) == [t.symbols] + Chain(p);
      forall j | 0 <= j < i - 1 ensures !BindsAt(Chain(p), j, x) {
        assert !BindsAt(Chain(t), j + 1, x);
      }
      assert BindsAt(Chain(p), i - 1, x);
      GetIsFirstBinding(p, x, i - 1);
    }
  }

  /** Table i of the chain has the key, possibly bound to null. */
  predicate HasAt(c: seq<map<string, Option<Symbol>>>, i: int, x: string)
    requires 0 <= i < |c|
  {
    x in c[i]
  }

  /** `contains` holds exactly when some table of the chain has the key. */
  lemma {:induction false} ContainsSomewhere(t: Table, x: string)
    ensures Contains(t, x) <==> exists i :: 0 <= i < |Chain(t)| && HasAt(Chain(t), i, x)
    decreases t
  {
    if t.parent.Some? {
      var p := t.parent.value;
      ContainsSomewhere(p, x);
      assert Chain(t) == [t.symbols] + Chain(p);
      if x !in t.symbols {
        if Contains(p, x) {
          var i :| 0 <= i < |Chain(p)| && HasAt(Chain(p), i, x);
          assert HasAt(Chain(t), i + 1, x);
        }
        if exists i :: 0 <= i < |Chain(t)| && HasAt(Chain(t), i, x) {
          var i :| 0 <= i < |Chain(t)| && HasAt(Chain(t), i, x);
          assert HasAt(Chain(p), i - 1, x);
        }
      } else {
        assert HasAt(Chain(t), 0, x);
      }
    } else {
      assert Chain(t) == [t.symbols];
      if x in t.symbols {
        assert HasAt(Chain(t), 0, x);
      }
    }
  }

  /** A symbol found by `get` is one `contains` reports. */
  lemma GetImpliesContains(t: Table, x: string)
    ensures Get(t, x).Some? ==> Contains(t, x)
  {
    GetFindsBinding(t, x);
    ContainsSomewhere(t, x);
  }

  /** `get` and `contains` disagree exactly when every table of the chain
      that has the key binds it to null. */
  lemma NullBindingDisagreement(t: Table, x: string)
    ensures (Contains(t, x) && Get(t, x).None?) <==>
      (Contains(t, x) && forall i :: 0 <= i < |Chain(t)| && HasAt(Chain(t), i, x) ==> Chain(t)[i][x].None?)
  {
    GetFindsBinding(t, x);
    if Get(t, x).None? {
      forall i | 0 <= i < |Chain(t)| && HasAt(Chain(t), i, x) ensures Chain(t)[i][x].None? {
        assert !BindsAt(Chain(t), i, x);
      }
    } else {
      var i :| 0 <= i < |Chain(t)| && BindsAt(Chain(t), i, x);
      assert HasAt(Chain(t), i, x) && Chain(t)[i][x].Some?;
    }
  }

  /** `containsInCurrent` looks at the current table only. */
  lemma CurrentIgnoresParent(t: Table, x: string)
    ensures ContainsInCurrent(t, x) <==> x in Chain(t)[0]
    ensures ContainsInCurrent(t, x) ==> Contains(t, x)
  {
  }

  /** After `put(x, s)` with a non-null s, `get(x)` is s; every other key
      reads as before, and the parent is untouched. */
  lemma PutThenGet(t: Table, x: string, s: Symbol, y: string)
    ensures Get(Put(t, x, Some(s)), x) == Some(s)
    ensures y != x ==> Get(Put(t, x, Some(s)), y) == Get(t, y)
    ensures y != x ==> Contains(Put(t, x, Some(s)), y) == Contains(t, y)
    ensures Put(t, x, Some(s)).parent == t.parent
  {
  }

  /** A child table sees its parent's bindings until it puts its own. */
  lemma ChildSeesParent(p: Table, x: string)
    ensures Get(Child(p), x) == Get(p, x)
    ensures Contains(Child(p), x) == Contains(p, x)
    ensures !ContainsInCurrent(Child(p), x)
  {
  }
}
