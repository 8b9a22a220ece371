/** The IR builder's scope stacks (`symbolTable` and `constTable` of
    `LLVMGenerator`): a list of maps, the last one innermost. Lookups scan
    from the innermost map outward; additions go to the innermost map. */
module Scopes {
  import opened Base

  type Stack<K, V> = seq<map<K, V>>

  /** `getValue` / `getConst` without their miss default: the binding of the
      innermost map that has the key. */
  function Find<K, V>(st: Stack<K, V>, k: K): Option<V>
    decreases |st|
  {
    if |st| == 0 then None
    else if k in st[|st| - 1] then Some(st[|st| - 1][k])
    else Find(st[..|st| - 1], k)
  }

  /** `addSymbol` / `addConst`: bind in the innermost map. */
  function Add<K, V>(st: Stack<K, V>, k: K, v: V): (r: Stack<K, V>)
    requires |st| > 0
    ensures |r| == |st|
    ensures forall i :: 0 <= i < |st| - 1 ==> r[i] == st[i]
    ensures r[|st| - 1] == st[|st| - 1][k := v]
  {
    st[..|st| - 1] + [st[|st| - 1][k := v]]
  }

  /** `changeConst`: overwrite the binding in the innermost map that has
      the key; nothing happens when no map has it. */
  function Change<K, V>(st: Stack<K, V>, k: K, v: V): (r: Stack<K, V>)
    decreases |st|
  {
    if |st| == 0 then st
    else if k in st[|st| - 1] then st[..|st| - 1] + [st[|st| - 1][k := v]]
    else Change(st[..|st| - 1], k, v) + [st[|st| - 1]]
  }

  /** `addSymbolAndConstTable` on one stack. */
  function Push<K, V>(st: Stack<K, V>): (r: Stack<K, V>)
    ensures |r| == |st| + 1 && r[..|st|] == st && r[|st|] == map[]
  {
    st + [map[]]
  }

  /** `removeSymbolAndConstTable` on one stack. */
  function Pop<K, V>(st: Stack<K, V>): (r: Stack<K, V>)
    requires |st| > 0
    ensures |r| == |st| - 1
  {
    st[..|st| - 1]
  }

  // ---------------------------------------------------------------------
  // Lookup

  /** Map i is the innermost one that has the key. */
  predicate InnermostAt<K, V>(st: Stack<K, V>, i: int, k: K)
    requires 0 <= i < |st|
  {
    k in st[i] && forall j :: i < j < |st| ==> k !in st[j]
  }

  /** A lookup misses exactly when no map has the key. */
  lemma {:induction false} FindMiss<K, V>(st: Stack<K, V>, k: K)
    ensures Find(st, k).None? <==> forall i :: 0 <= i < |st| ==> k !in st[i]
    decreases |st|
  {
    if |st| > 0 && k !in st[|st| - 1] {
      var init := st[..|st| - 1];
      FindMiss(init, k);
      forall i | 0 <= i < |st| - 1 ensures st[i] == init[i] { }
    }
  }

  /** A hit returns the binding of the innermost map that has the key. */
  lemma {:induction false} FindInnermost<K, V>(st: Stack<K, V>, k: K, i: int)
    requires 0 <= i < |st| && InnermostAt(st, i, k)
    ensures Find(st, k) == Some(st[i][k])
    decreases |st|
  {
    if i < |st| - 1 {
      var init := st[..|st| - 1];
      assert k !in st[|st| - 1];
      assert init[i] == st[i];
      forall j | i < j < |init| ensures k !in init[j] {
        assert init[j] == st[j];
      }
      FindInnermost(init, k, i);
    }
  }

  // ---------------------------------------------------------------------
  // Adding and changing

  /** After an addition the key reads as the new value and every other
      key reads as before. */
  lemma AddThenFind<K, V>(st: Stack<K, V>, k: K, v: V, k2: K)
    requires |st| > 0
    ensures Find(Add(st, k, v), k) == Some(v)
    ensures k2 != k ==> Find(Add(st, k, v), k2) == Find(st, k2)
  {
    var r := Add(st, k, v);
    assert r[..|r| - 1] == st[..|st| - 1];
  }

  /** `changeConst` keeps the depth and the set of keys of every map. */
  lemma {:induction false} ChangeKeepsKeys<K, V>(st: Stack<K, V>, k: K, v: V)
    ensures |Change(st, k, v)| == |st|
    ensures forall i :: 0 <= i < |st| ==> Change(st, k, v)[i].Keys == st[i].Keys
    decreases |st|
  {
    if |st| > 0 && k !in st[|st| - 1] {
      var init := st[..|st| - 1];
      ChangeKeepsKeys(init, k, v);
      var r := Change(st, k, v);
      forall i | 0 <= i < |st| ensures r[i].Keys == st[i].Keys {
        if i < |st| - 1 {
          assert r[i] == Change(init, k, v)[i] && st[i] == init[i];
        }
      }
    }
  }

  /** On a miss `changeConst` does nothing. */
  lemma {:induction false} ChangeMiss<K, V>(st: Stack<K, V>, k: K, v: V)
    requires forall i :: 0 <= i < |st| ==> k !in st[i]
    ensures Change(st, k, v) == st
    decreases |st|
  {
    if |st| > 0 {
      var init := st[..|st| - 1];
      assert forall i :: 0 <= i < |init| ==> k !in init[i] by {
        forall i | 0 <= i < |init| ensures k !in init[i] {
          assert init[i] == st[i];
        }
      }
      ChangeMiss(init, k, v);
      assert init + [st[|st| - 1]] == st;
    }
  }

  /** On a hit `changeConst` rewrites the innermost map that has the key,
      and only that map. */
  lemma {:induction false} ChangeHit<K, V>(st: Stack<K, V>, k: K, v: V, i: int)
    requires 0 <= i < |st| && InnermostAt(st, i, k)
    ensures |Change(st, k, v)| == |st|
    ensures Change(st, k, v)[i] == st[i][k := v]
    ensures forall j :: 0 <= j < |st| && j != i ==> Change(st, k, v)[j] == st[j]
    decreases |st|
  {
    var r := Change(st, k, v);
    if i < |st| - 1 {
      var init := st[..|st| - 1];
      assert k !in st[|st| - 1];
      forall j | i < j < |init| ensures k !in init[j] {
        assert init[j] == st[j];
      }
      ChangeHit(init, k, v, i);
      ChangeKeepsKeys(init, k, v);
      forall j | 0 <= j < |st| && j != i ensures r[j] == st[j] {
        if j < |st| - 1 {
          assert r[j] == Change(init, k, v)[j] && st[j] == init[j];
        }
      }
    } else {
      forall j | 0 <= j < |st| - 1 ensures r[j] == st[j] { }
    }
  }

  /** After `changeConst` on a key some map has, the key reads as the new
      value. */
  lemma ChangeThenFind<K, V>(st: Stack<K, V>, k: K, v: V, i: int)
    requires 0 <= i < |st| && InnermostAt(st, i, k)
    ensures Find(Change(st, k, v), k) == Some(v)
  {
    ChangeHit(st, k, v, i);
    ChangeKeepsKeys(st, k, v);
    var r := Change(st, k, v);
    forall j | i < j < |r| ensures k !in r[j] {
      assert r[j].Keys == st[j].Keys;
    }
    FindInnermost(r, k, i);
  }

  // ---------------------------------------------------------------------
  // Push and pop

  /** A fresh innermost map hides nothing, and popping it restores the
      stack. */
  lemma PushPop<K, V>(st: Stack<K, V>, k: K)
    ensures Find(Push(st), k) == Find(st, k)
    ensures Pop(Push(st)) == st
  {
    assert Push(st)[..|st|] == st;
  }
}
