/** `parseGEP`: folding a `getelementptr` into an address computation.
    The base pointer goes into `$t2`; each index adds index * stride, where
    the stride of index i is 4 times the product of the array dimensions
    from i - 1 on. Constant indices are summed at compile time into a
    pending offset (`lastOff`) that is emitted as one `addu` before the next
    run-time index or at the end.

    As written, the pending offset is not cleared after it has been emitted
    before a run-time index, so it is added again later. `GepCodeAsWritten`
    keeps that behaviour; `GepCode` clears it, and is the one proved to
    compute base + sum of index * stride. */
module Gep {
  import opened Int32
  import opened Mips
  import opened Base
  import opened Storage
  import Magic

  /** What the GEP's base pointer points to. */
  datatype Target = ToArray(dims: seq<int>) | ToScalar

  /** The base of a GEP: a string constant (whose label is all that is
      used) or a pointer operand. */
  datatype GepBase = StringConst(name: string) | Pointer(p: Operand, target: Target)

  /** `base *= dims.get(j)` over a list of dimensions, in Java `int`. */
  function ScaleBy(b: int, ds: seq<int>): int
    decreases |ds|
  {
    if |ds| == 0 then b else ScaleBy(Wrap(b * ds[0]), ds[1..])
  }

  function Product(ds: seq<int>): int
    decreases |ds|
  {
    if |ds| == 0 then 1 else ds[0] * Product(ds[1..])
  }

  /** The dimensions whose product scales index i (1-based). */
  function DimsFrom(t: Target, i: nat): seq<int>
    requires i >= 1
  {
    match t
    case ToArray(dims) => if i - 1 <= |dims| then dims[i - 1..] else []
    case ToScalar => []
  }

  /** The byte stride of index i (1-based). */
  function Stride(t: Target, i: nat): int
    requires i >= 1
  {
    ScaleBy(4, DimsFrom(t, i))
  }

  /** The strides of the first n indices. */
  function Strides(t: Target, n: nat): (r: seq<int>)
    ensures |r| == n
    ensures forall k :: 0 <= k < n ==> r[k] == Stride(t, k + 1)
  {
    seq(n, k requires 0 <= k < n => Stride(t, k + 1))
  }

  /** Folding the dimensions in Java `int` gives their product times the
      starting value, modulo 2^32. */
  lemma {:induction false} ScaleByProduct(b: int, ds: seq<int>)
    requires IsWord(b)
    ensures ScaleBy(b, ds) == Wrap(b * Product(ds))
    decreases |ds|
  {
    if |ds| == 0 {
      WrapId(b);
    } else {
      var w := Wrap(b * ds[0]);
      ScaleByProduct(w, ds[1..]);
      WrapMul(b * ds[0], Product(ds[1..]));
      assert b * Product(ds) == (b * ds[0]) * Product(ds[1..]);
    }
  }

  /** The stride of index i is 4 times the product of the dimensions from
      i - 1 on (none for a scalar target), modulo 2^32. */
  lemma {:induction false} StrideIsProduct(t: Target, i: nat)
    requires i >= 1
    ensures Stride(t, i) == Wrap(4 * Product(DimsFrom(t, i)))
  {
    ScaleByProduct(4, DimsFrom(t, i));
  }

  /** One emitted loop iteration after another, for indices `idx` with
      strides `strides` and pending constant offset `lastOff`. `reset`
      selects whether the pending offset is cleared once emitted. */
  function GepLoop(st: Storage, gep: string, idx: seq<Operand>, strides: seq<int>, lastOff: int, reset: bool): seq<Instr>
    requires |strides| == |idx| && gep in st.slots
    requires forall k :: 0 <= k < |idx| ==> Mapped(st, idx[k])
    decreases |idx|
  {
    if |idx| == 0 then []
    else
      var b := strides[0];
      match idx[0]
      case Const(c) =>
        var lo := Wrap(lastOff + Wrap(c * b));
        if |idx| == 1 then (if lo == 0 then [] else [AdduImm(T2, T2, lo)]) + StoreCode(st, T2, gep)
        else GepLoop(st, gep, idx[1..], strides[1..], lo, reset)
      case Named(_) =>
        NamedCode(st, gep, idx[0], b, lastOff)
        + GepLoop(st, gep, idx[1..], strides[1..], if reset then 0 else lastOff, reset)
  }

  /** The `addu` of a pending constant offset, omitted when it is zero. */
  function PendingCode(lastOff: int): seq<Instr>
  {
    if lastOff != 0 then [AdduImm(T2, T2, lastOff)] else []
  }

  /** One iteration for a run-time index: emit the pending offset, load
      the index into `$t1`, scale it by the stride, add it to `$t2`, store. */
  function NamedCode(st: Storage, gep: string, o: Operand, b: int, lastOff: int): seq<Instr>
    requires gep in st.slots && Mapped(st, o)
  {
    PendingCode(lastOff) + (LoadCode(st, T1, o) + [MulImm(T1, T1, b), Addu(T2, T2, T1)] + StoreCode(st, T2, gep))
  }

  /** The number of indices `parseGEP` walks: all of them for an array
      target, only the first for a scalar one. */
  function OffsetNum(t: Target, idx: seq<Operand>): nat
  {
    if t.ToArray? then |idx| else if |idx| == 0 then 0 else 1
  }

  function GepCodeWith(st: Storage, gep: string, base: GepBase, idx: seq<Operand>, reset: bool): seq<Instr>
    requires gep in st.slots && AllMapped(st, idx)
    requires base.Pointer? ==> Mapped(st, base.p)
  {
    match base
    case StringConst(name) => [La(A0, name)]
    case Pointer(p, t) =>
      var n := OffsetNum(t, idx);
      LoadCode(st, T2, p) + StoreCode(st, T2, gep) + GepLoop(st, gep, idx[..n], Strides(t, n), 0, reset)
  }

  /** `parseGEP` as written: the pending offset survives its own `addu`. */
  function GepCodeAsWritten(st: Storage, gep: string, base: GepBase, idx: seq<Operand>): seq<Instr>
    requires gep in st.slots && AllMapped(st, idx)
    requires base.Pointer? ==> Mapped(st, base.p)
  {
    GepCodeWith(st, gep, base, idx, false)
  }

  /** `parseGEP` with the pending offset cleared once it has been added. */
  function GepCode(st: Storage, gep: string, base: GepBase, idx: seq<Operand>): seq<Instr>
    requires gep in st.slots && AllMapped(st, idx)
    requires base.Pointer? ==> Mapped(st, base.p)
  {
    GepCodeWith(st, gep, base, idx, true)
  }

  // ---------------------------------------------------------------------
  // The arithmetic the loop performs

  /** An index as the arithmetic sees it: a compile-time constant or the
      word a named value holds at run time. */
  datatype Ix = Known(c: int) | Unknown(v: int)

  function IxValue(x: Ix): int
  {
    match x
    case Known(c) => c
    case Unknown(v) => v
  }

  /** What the emitted loop adds to `$t2`, step by step as the code does it. */
  function Added(ix: seq<Ix>, strides: seq<int>, lastOff: int, reset: bool): int
    requires |strides| == |ix|
    decreases |ix|
  {
    if |ix| == 0 then 0
    else
      match ix[0]
      case Known(c) =>
        var lo := Wrap(lastOff + Wrap(c * strides[0]));
        if |ix| == 1 then lo else Added(ix[1..], strides[1..], lo, reset)
      case Unknown(v) =>
        lastOff + v * strides[0] + Added(ix[1..], strides[1..], if reset then 0 else lastOff, reset)
  }

  /** The offset a GEP denotes: the sum of index * stride. */
  function Offset(ix: seq<Ix>, strides: seq<int>): int
    requires |strides| == |ix|
    decreases |ix|
  {
    if |ix| == 0 then 0 else IxValue(ix[0]) * strides[0] + Offset(ix[1..], strides[1..])
  }

  lemma {:induction false} WrapAddRight(a: int, b: int)
    ensures Wrap(a + Wrap(b)) == Wrap(a + b)
  {
    WrapAdd(b, a);
    WrapAdd(Wrap(b), a);
    assert Wrap(b) + a == a + Wrap(b);
  }

  /** With the pending offset cleared after use, the loop adds exactly the
      pending offset plus the sum of index * stride, modulo 2^32. */
  lemma {:induction false} AddedWithReset(ix: seq<Ix>, strides: seq<int>, lo: int)
    requires |strides| == |ix| && (|ix| > 0 || lo == 0)
    ensures Wrap(Added(ix, strides, lo, true)) == Wrap(lo + Offset(ix, strides))
    decreases |ix|
  {
    if |ix| > 0 {
      var b := strides[0];
      var rest := Offset(ix[1..], strides[1..]);
      assert Offset(ix, strides) == IxValue(ix[0]) * b + rest;
      match ix[0]
      case Known(c) =>
        var lo' := Wrap(lo + Wrap(c * b));
        if |ix| == 1 {
          assert Added(ix, strides, lo, true) == lo';
          KnownLastSum(lo, c * b, rest);
        } else {
          assert Added(ix, strides, lo, true) == Added(ix[1..], strides[1..], lo', true);
          AddedWithReset(ix[1..], strides[1..], lo');
          KnownSum(lo, c * b, rest, Added(ix[1..], strides[1..], lo', true));
        }
      case Unknown(v) =>
        var a := Added(ix[1..], strides[1..], 0, true);
        assert Added(ix, strides, lo, true) == lo + v * b + a;
        AddedWithReset(ix[1..], strides[1..], 0);
        UnknownSum(lo, v * b, a, rest);
    }
  }

  lemma {:induction false} KnownLastSum(lo: int, m: int, rest: int)
    requires rest == 0
    ensures Wrap(Wrap(lo + Wrap(m))) == Wrap(lo + (m + rest))
  {
    WrapAddRight(lo, m);
    WrapId(Wrap(lo + Wrap(m)));
  }

  lemma {:induction false} KnownSum(lo: int, m: int, rest: int, a: int)
    requires Wrap(a) == Wrap(Wrap(lo + Wrap(m)) + 0 + rest)
    ensures Wrap(a) == Wrap(lo + (m + rest))
  {
    WrapAdd(lo + Wrap(m), rest);
    WrapAddRight(lo + rest, m);
    assert lo + Wrap(m) + rest == lo + rest + Wrap(m);
    assert lo + rest + m == lo + (m + rest);
  }

  lemma {:induction false} UnknownSum(lo: int, m: int, a: int, rest: int)
    requires Wrap(a) == Wrap(0 + rest)
    ensures Wrap(lo + m + a) == Wrap(lo + (m + rest))
  {
    WrapAddRight(lo + m, a);
    WrapAddRight(lo + m, rest);
  }

  /** No run-time index is reached while a constant offset is pending:
      the only case in which the pending offset the code keeps matters. */
  predicate PendingClear(ix: seq<Ix>, strides: seq<int>, lo: int)
    requires |strides| == |ix|
    decreases |ix|
  {
    |ix| == 0 ||
    match ix[0]
    case Known(c) => |ix| == 1 || PendingClear(ix[1..], strides[1..], Wrap(lo + Wrap(c * strides[0])))
    case Unknown(_) => lo == 0 && PendingClear(ix[1..], strides[1..], 0)
  }

  /** When no run-time index meets a pending offset, clearing the offset
      changes nothing: the loop as written adds what the corrected one adds. */
  lemma {:induction false} AddedPendingClear(ix: seq<Ix>, strides: seq<int>, lo: int)
    requires |strides| == |ix| && PendingClear(ix, strides, lo)
    ensures Added(ix, strides, lo, false) == Added(ix, strides, lo, true)
    decreases |ix|
  {
    if |ix| > 0 {
      match ix[0]
      case Known(c) =>
        if |ix| > 1 {
          AddedPendingClear(ix[1..], strides[1..], Wrap(lo + Wrap(c * strides[0])));
        }
      case Unknown(_) =>
        AddedPendingClear(ix[1..], strides[1..], 0);
    }
  }

  /** Constant indices only leave no run-time index to meet an offset. */
  lemma {:induction false} AllKnownPendingClear(ix: seq<Ix>, strides: seq<int>, lo: int)
    requires |strides| == |ix| && forall k :: 0 <= k < |ix| ==> ix[k].Known?
    ensures PendingClear(ix, strides, lo)
    decreases |ix|
  {
    if |ix| > 1 {
      AllKnownPendingClear(ix[1..], strides[1..], Wrap(lo + Wrap(ix[0].c * strides[0])));
    }
  }

  /** The sequence [c, x, 0] on a two-dimensional array int[2][3]: the
      constant 1 * 24 is emitted before x and again at the end. */
  lemma {:induction false} AsWrittenCountsTwice()
    ensures Strides(ToArray([2, 3]), 3) == [24, 12, 4]
    ensures Added([Known(1), Unknown(0), Known(0)], [24, 12, 4], 0, false) == 48
    ensures Offset([Known(1), Unknown(0), Known(0)], [24, 12, 4]) == 24
  {
    var t := ToArray([2, 3]);
    assert DimsFrom(t, 1) == [2, 3];
    assert DimsFrom(t, 2) == [3];
    assert DimsFrom(t, 3) == [];
    assert [2, 3][1..] == [3];
    assert Strides(t, 3) == [Stride(t, 1), Stride(t, 2), Stride(t, 3)];
  }

  // ---------------------------------------------------------------------
  // Running the emitted code

  function IxOf(s: State, st: Storage, o: Operand): Ix
    requires Mapped(st, o)
  {
    match o
    case Const(c) => Known(c)
    case Named(_) => Unknown(ValueOf(s, st, o))
  }

  /** The indices as the arithmetic sees them in state `s`. */
  function Ixs(s: State, st: Storage, idx: seq<Operand>): (r: seq<Ix>)
    requires AllMapped(st, idx)
    ensures |r| == |idx|
    decreases |idx|
  {
    if |idx| == 0 then [] else [IxOf(s, st, idx[0])] + Ixs(s, st, idx[1..])
  }

  /** Named indices live in stack words other than the GEP's own. */
  ghost predicate Apart(st: Storage, gep: string, idx: seq<Operand>)
  {
    && gep in st.slots && st.slots[gep].StackSlot?
    && forall k :: 0 <= k < |idx| && idx[k].Named? ==>
         && idx[k].name in st.slots && st.slots[idx[k].name].StackSlot?
         && st.slots[idx[k].name].off != st.slots[gep].off
  }

  lemma {:induction false} ApartTail(st: Storage, gep: string, idx: seq<Operand>)
    requires |idx| > 0 && Apart(st, gep, idx)
    ensures Apart(st, gep, idx[1..])
  {
    forall k | 0 <= k < |idx| - 1 && idx[1..][k].Named?
      ensures st.slots[idx[1..][k].name].StackSlot?
    {
      assert idx[1..][k] == idx[k + 1];
    }
  }

  lemma {:induction false} ApartMapped(st: Storage, gep: string, idx: seq<Operand>)
    requires Apart(st, gep, idx)
    ensures AllMapped(st, idx)
  {
  }

  /** Writing a register other than `$sp` changes no index. */
  lemma {:induction false} IxsSet(s: State, st: Storage, idx: seq<Operand>, r: Reg, v: int)
    requires AllMapped(st, idx) && r != SP
    ensures Ixs(Set(s, r, v), st, idx) == Ixs(s, st, idx)
    decreases |idx|
  {
    if |idx| > 0 {
      ValueOfSet(s, st, r, v, idx[0]);
      IxsSet(s, st, idx[1..], r, v);
    }
  }

  /** Writing the GEP's own word changes no index. */
  lemma {:induction false} IxsStore(s: State, st: Storage, gep: string, idx: seq<Operand>, v: int)
    requires Apart(st, gep, idx)
    ensures AllMapped(st, idx)
    ensures Ixs(Store(s, SlotAddr(s, st.slots[gep].off), v), st, idx) == Ixs(s, st, idx)
    decreases |idx|
  {
    if |idx| > 0 {
      ApartTail(st, gep, idx);
      IxsStore(s, st, gep, idx[1..], v);
      assert idx[0].Named? ==> st.slots[idx[0].name].off != st.slots[gep].off;
    }
  }

  /** A pending offset is added to `$t2` (nothing is emitted when it is
      0); `$sp` and every index keep their values. */
  lemma {:induction false} PendingFacts(s: State, st: Storage, rest: seq<Operand>, o: Operand, lastOff: int)
    requires AllMapped(st, rest) && Mapped(st, o)
    ensures var t := Run(s, PendingCode(lastOff));
      && Get(t, SP) == Get(s, SP)
      && Get(t, T2) == Wrap(Get(s, T2) + lastOff)
      && Ixs(t, st, rest) == Ixs(s, st, rest)
      && ValueOf(t, st, o) == ValueOf(s, st, o)
  {
    if lastOff != 0 {
      var i := AdduImm(T2, T2, lastOff);
      assert PendingCode(lastOff) == [i];
      RunOne(s, i);
      AdduImmExec(s, T2, lastOff);
      IxsSet(s, st, rest, T2, Get(s, T2) + lastOff);
      ValueOfSet(s, st, T2, Get(s, T2) + lastOff, o);
    } else {
      assert PendingCode(lastOff) == [];
      WrapId(Get(s, T2));
    }
  }

  lemma {:induction false} AdduImmExec(s: State, r: Reg, imm: int)
    ensures Exec(s, AdduImm(r, r, imm)) == Set(s, r, Get(s, r) + imm)
  {
  }

  /** One run-time index: load it, scale it, add it to `$t2`, store `$t2`. */
  lemma {:induction false} NamedBody(s: State, st: Storage, gep: string, n: string, b: int)
    requires gep in st.slots && st.slots[gep].StackSlot?
    requires n in st.slots && st.slots[n].StackSlot?
    ensures var t := Run(s, LoadCode(st, T1, Named(n)) + [MulImm(T1, T1, b), Addu(T2, T2, T1)] + StoreCode(st, T2, gep));
      var u := Set(Set(s, T1, ValueOf(s, st, Named(n)) * b), T2, Get(s, T2) + ValueOf(s, st, Named(n)) * b);
      t == Store(u, SlotAddr(u, st.slots[gep].off), Get(u, T2))
  {
    var v := ValueOf(s, st, Named(n));
    var off, goff := st.slots[n].off, st.slots[gep].off;
    assert LoadCode(st, T1, Named(n)) == [Lw(T1, off, SP)];
    assert StoreCode(st, T2, gep) == [Sw(T2, goff, SP)];
    var s1 := Exec(s, Lw(T1, off, SP));
    var s2 := Exec(s1, MulImm(T1, T1, b));
    var s3 := Exec(s2, Addu(T2, T2, T1));
    RunFour(s, Lw(T1, off, SP), MulImm(T1, T1, b), Addu(T2, T2, T1), Sw(T2, goff, SP));
    assert [Lw(T1, off, SP)] + [MulImm(T1, T1, b), Addu(T2, T2, T1)] + [Sw(T2, goff, SP)]
        == [Lw(T1, off, SP), MulImm(T1, T1, b), Addu(T2, T2, T1), Sw(T2, goff, SP)];
    assert s1 == Set(s, T1, v);
    WrapId(v);
    SetTwice(s, T1, v, v * b);
    assert s2 == Set(s, T1, v * b);
    WrapAddRight(Get(s, T2), v * b);
  }

  /** What one run-time index iteration after the pending offset does:
      `$t2` gains index * stride, the GEP's word receives `$t2`, `$sp` and
      every other index keep their values. */
  lemma {:induction false} NamedBodyFacts(s: State, st: Storage, gep: string, rest: seq<Operand>, n: string, b: int)
    requires gep in st.slots && st.slots[gep].StackSlot?
    requires n in st.slots && st.slots[n].StackSlot?
    requires Apart(st, gep, rest)
    ensures AllMapped(st, rest)
    ensures var t := Run(s, LoadCode(st, T1, Named(n)) + [MulImm(T1, T1, b), Addu(T2, T2, T1)] + StoreCode(st, T2, gep));
      && Get(t, SP) == Get(s, SP)
      && Get(t, T2) == Wrap(Get(s, T2) + ValueOf(s, st, Named(n)) * b)
      && Load(t, SlotAddr(s, st.slots[gep].off)) == Get(t, T2)
      && Ixs(t, st, rest) == Ixs(s, st, rest)
  {
    var v := ValueOf(s, st, Named(n));
    var u1 := Set(s, T1, v * b);
    var u := Set(u1, T2, Get(s, T2) + v * b);
    NamedBody(s, st, gep, n, b);
    StoreBack(u, st.slots[gep].off);
    IxsSet(s, st, rest, T1, v * b);
    IxsSet(u1, st, rest, T2, Get(s, T2) + v * b);
    IxsStore(u, st, gep, rest, Get(u, T2));
  }

  /** One iteration for a run-time index: the pending offset, then the
      index times its stride, end up in `$t2` and in the GEP's word, and no
      index changes. */
  lemma {:induction false} NamedStep(s: State, st: Storage, gep: string, idx: seq<Operand>, b: int, lastOff: int)
    requires |idx| > 0 && idx[0].Named? && Apart(st, gep, idx)
    ensures AllMapped(st, idx)
    ensures var t := Run(s, NamedCode(st, gep, idx[0], b, lastOff));
      && Get(t, SP) == Get(s, SP)
      && Get(t, T2) == Wrap(Get(s, T2) + lastOff + ValueOf(s, st, idx[0]) * b)
      && Load(t, SlotAddr(s, st.slots[gep].off)) == Get(t, T2)
      && Ixs(t, st, idx[1..]) == Ixs(s, st, idx[1..])
  {
    ApartTail(st, gep, idx);
    var n := idx[0].name;
    var body := LoadCode(st, T1, idx[0]) + [MulImm(T1, T1, b), Addu(T2, T2, T1)] + StoreCode(st, T2, gep);
    PendingFacts(s, st, idx[1..], idx[0], lastOff);
    var s0 := Run(s, PendingCode(lastOff));
    RunAppend(s, PendingCode(lastOff), body);
    NamedBodyFacts(s0, st, gep, idx[1..], n, b);
    PendingSum(Get(s, T2), lastOff, ValueOf(s, st, idx[0]) * b, Get(s0, T2), Get(Run(s0, body), T2));
  }

  lemma {:induction false} StoreBack(u: State, off: int)
    ensures var t := Store(u, SlotAddr(u, off), Get(u, T2));
      Get(t, SP) == Get(u, SP) && Get(t, T2) == Get(u, T2) && Load(t, SlotAddr(u, off)) == Get(u, T2)
  {
    WrapId(Get(u, T2));
  }

  lemma {:induction false} PendingSum(x: int, lastOff: int, m: int, y: int, z: int)
    requires y == Wrap(x + lastOff) && z == Wrap(y + m)
    ensures z == Wrap(x + lastOff + m)
  {
    WrapAdd(x + lastOff, m);
  }

  /** The last index is a constant: the accumulated offset, if any, is
      added and `$t2` stored. */
  lemma {:induction false} KnownLast(s: State, st: Storage, gep: string, lo: int)
    requires gep in st.slots && st.slots[gep].StackSlot? && IsWord(lo)
    ensures Load(Run(s, (if lo == 0 then [] else [AdduImm(T2, T2, lo)]) + StoreCode(st, T2, gep)),
                 SlotAddr(s, st.slots[gep].off))
            == Wrap(Get(s, T2) + lo)
  {
    var goff := st.slots[gep].off;
    if lo == 0 {
      assert ([] + StoreCode(st, T2, gep)) == StoreCode(st, T2, gep);
      StoreStackEffect(s, st, T2, gep);
      WrapId(Get(s, T2));
    } else {
      var s1 := Exec(s, AdduImm(T2, T2, lo));
      assert [AdduImm(T2, T2, lo)] + StoreCode(st, T2, gep) == [AdduImm(T2, T2, lo)] + [Sw(T2, goff, SP)];
      RunCons(s, AdduImm(T2, T2, lo), [Sw(T2, goff, SP)]);
      RunOne(s1, Sw(T2, goff, SP));
      WrapId(Get(s1, T2));
    }
  }

  /** The emitted loop leaves in the GEP's word the value of `$t2` plus
      what `Added` says, provided the word already holds `$t2`. */
  lemma {:induction false} LoopRun(s: State, st: Storage, gep: string, idx: seq<Operand>, strides: seq<int>,
                                   lastOff: int, reset: bool)
    requires Apart(st, gep, idx) && |strides| == |idx| && IsWord(lastOff)
    requires Load(s, SlotAddr(s, st.slots[gep].off)) == Get(s, T2)
    ensures AllMapped(st, idx)
    ensures Load(Run(s, GepLoop(st, gep, idx, strides, lastOff, reset)), SlotAddr(s, st.slots[gep].off))
            == Wrap(Get(s, T2) + Added(Ixs(s, st, idx), strides, lastOff, reset))
    decreases |idx|, 2
  {
    if |idx| == 0 {
      WrapId(Get(s, T2));
    } else if idx[0].Const? {
      ConstRun(s, st, gep, idx, strides, lastOff, reset);
    } else {
      NamedRun(s, st, gep, idx, strides, lastOff, reset);
    }
  }

  /** A constant index only updates the pending offset, unless it is the
      last one. */
  lemma {:induction false} ConstRun(s: State, st: Storage, gep: string, idx: seq<Operand>, strides: seq<int>,
                                    lastOff: int, reset: bool)
    requires |idx| > 0 && idx[0].Const?
    requires Apart(st, gep, idx) && |strides| == |idx| && IsWord(lastOff)
    requires Load(s, SlotAddr(s, st.slots[gep].off)) == Get(s, T2)
    ensures AllMapped(st, idx)
    ensures Load(Run(s, GepLoop(st, gep, idx, strides, lastOff, reset)), SlotAddr(s, st.slots[gep].off))
            == Wrap(Get(s, T2) + Added(Ixs(s, st, idx), strides, lastOff, reset))
    decreases |idx|, 0
  {
    ApartTail(st, gep, idx);
    var ix := Ixs(s, st, idx);
    assert ix[0] == Known(idx[0].v) && ix[1..] == Ixs(s, st, idx[1..]);
    var lo := Wrap(lastOff + Wrap(idx[0].v * strides[0]));
    if |idx| == 1 {
      assert GepLoop(st, gep, idx, strides, lastOff, reset)
          == (if lo == 0 then [] else [AdduImm(T2, T2, lo)]) + StoreCode(st, T2, gep);
      assert Added(ix, strides, lastOff, reset) == lo;
      KnownLast(s, st, gep, lo);
    } else {
      assert GepLoop(st, gep, idx, strides, lastOff, reset) == GepLoop(st, gep, idx[1..], strides[1..], lo, reset);
      assert Added(ix, strides, lastOff, reset) == Added(ix[1..], strides[1..], lo, reset);
      LoopRun(s, st, gep, idx[1..], strides[1..], lo, reset);
    }
  }

  /** A run-time index: one iteration of code, then the rest of the loop
      from the state it leaves. */
  lemma {:induction false} NamedRun(s: State, st: Storage, gep: string, idx: seq<Operand>, strides: seq<int>,
                                    lastOff: int, reset: bool)
    requires |idx| > 0 && idx[0].Named?
    requires Apart(st, gep, idx) && |strides| == |idx| && IsWord(lastOff)
    requires Load(s, SlotAddr(s, st.slots[gep].off)) == Get(s, T2)
    ensures AllMapped(st, idx)
    ensures Load(Run(s, GepLoop(st, gep, idx, strides, lastOff, reset)), SlotAddr(s, st.slots[gep].off))
            == Wrap(Get(s, T2) + Added(Ixs(s, st, idx), strides, lastOff, reset))
    decreases |idx|, 1
  {
    ApartTail(st, gep, idx);
    var ix := Ixs(s, st, idx);
    var b := strides[0];
    var pre := NamedCode(st, gep, idx[0], b, lastOff);
    var next := if reset then 0 else lastOff;
    var rest := GepLoop(st, gep, idx[1..], strides[1..], next, reset);
    NamedUnfold(s, st, gep, idx, strides, lastOff, reset);
    RunAppend(s, pre, rest);
    NamedThenRest(s, st, gep, idx, strides, lastOff, reset);
    AddedStep(Get(s, T2), lastOff, ValueOf(s, st, idx[0]) * b, Added(ix[1..], strides[1..], next, reset),
              Get(Run(s, pre), T2));
  }

  /** The iteration for a run-time index followed by the rest of the loop. */
  lemma {:induction false} NamedThenRest(s: State, st: Storage, gep: string, idx: seq<Operand>, strides: seq<int>,
                                         lastOff: int, reset: bool)
    requires |idx| > 0 && idx[0].Named?
    requires Apart(st, gep, idx) && |strides| == |idx| && IsWord(lastOff)
    ensures AllMapped(st, idx) && AllMapped(st, idx[1..])
    ensures var t := Run(s, NamedCode(st, gep, idx[0], strides[0], lastOff));
      var next := if reset then 0 else lastOff;
      && Get(t, T2) == Wrap(Get(s, T2) + lastOff + ValueOf(s, st, idx[0]) * strides[0])
      && Load(Run(t, GepLoop(st, gep, idx[1..], strides[1..], next, reset)), SlotAddr(s, st.slots[gep].off))
         == Wrap(Get(t, T2) + Added(Ixs(s, st, idx[1..]), strides[1..], next, reset))
    decreases |idx|, 0
  {
    ApartTail(st, gep, idx);
    var next := if reset then 0 else lastOff;
    NamedStep(s, st, gep, idx, strides[0], lastOff);
    var t := Run(s, NamedCode(st, gep, idx[0], strides[0], lastOff));
    LoopRun(t, st, gep, idx[1..], strides[1..], next, reset);
  }

  /** One step of `GepLoop`, `Ixs` and `Added` at a run-time index. */
  lemma {:induction false} NamedUnfold(s: State, st: Storage, gep: string, idx: seq<Operand>, strides: seq<int>,
                    lastOff: int, reset: bool)
    requires |idx| > 0 && idx[0].Named? && gep in st.slots && AllMapped(st, idx) && |strides| == |idx|
    ensures AllMapped(st, idx[1..])
    ensures var next := if reset then 0 else lastOff;
      && GepLoop(st, gep, idx, strides, lastOff, reset)
         == NamedCode(st, gep, idx[0], strides[0], lastOff) + GepLoop(st, gep, idx[1..], strides[1..], next, reset)
      && Ixs(s, st, idx)[1..] == Ixs(s, st, idx[1..])
      && Added(Ixs(s, st, idx), strides, lastOff, reset)
         == lastOff + ValueOf(s, st, idx[0]) * strides[0] + Added(Ixs(s, st, idx)[1..], strides[1..], next, reset)
  {
    var ix := Ixs(s, st, idx);
    assert ix[0] == Unknown(ValueOf(s, st, idx[0]));
    assert ix[1..] == Ixs(s, st, idx[1..]);
  }

  lemma {:induction false} AddedStep(x: int, l: int, m: int, a: int, y: int)
    requires y == Wrap(x + l + m)
    ensures Wrap(y + a) == Wrap(x + (l + m + a))
  {
    WrapAdd(x + l + m, a);
    assert x + l + m + a == x + (l + m + a);
  }

  // ---------------------------------------------------------------------
  // The whole GEP

  /** The storage facts `parseGEP` relies on: the GEP's own word is a stack
      word, and each run-time index is a stack word of another name. */
  ghost predicate GepFrame(st: Storage, gep: string, idx: seq<Operand>)
  {
    && Valid(st) && gep in st.slots && st.slots[gep].StackSlot?
    && forall k :: 0 <= k < |idx| && idx[k].Named? ==>
         && idx[k].name in st.slots && st.slots[idx[k].name].StackSlot? && idx[k].name != gep
  }

  lemma {:induction false} FrameApart(st: Storage, gep: string, idx: seq<Operand>, n: nat)
    requires GepFrame(st, gep, idx) && n <= |idx|
    ensures Apart(st, gep, idx[..n]) && AllMapped(st, idx)
  {
    forall k | 0 <= k < n && idx[..n][k].Named?
      ensures st.slots[idx[..n][k].name].off != st.slots[gep].off
    {
      assert idx[..n][k] == idx[k];
    }
  }

  /** Loading the base pointer into `$t2` and storing it in the GEP's word
      leaves the word equal to `$t2` and every index as it was. */
  lemma {:induction false} Prologue(s: State, st: Storage, gep: string, p: Operand, idx: seq<Operand>)
    requires Mapped(st, p) && Apart(st, gep, idx)
    ensures AllMapped(st, idx)
    ensures var t := Run(s, LoadCode(st, T2, p) + StoreCode(st, T2, gep));
      && Get(t, SP) == Get(s, SP)
      && Get(t, T2) == ValueOf(s, st, p)
      && Load(t, SlotAddr(t, st.slots[gep].off)) == Get(t, T2)
      && Ixs(t, st, idx) == Ixs(s, st, idx)
  {
    var v := ValueOf(s, st, p);
    var s1 := Set(s, T2, v);
    LoadEffect(s, st, T2, p);
    RunAppend(s, LoadCode(st, T2, p), StoreCode(st, T2, gep));
    StoreStackEffect(s1, st, T2, gep);
    IxsSet(s, st, idx, T2, v);
    IxsStore(s1, st, gep, idx, v);
    StoreBack(s1, st.slots[gep].off);
  }

  /** Either version of `parseGEP` stores the base pointer plus what its
      loop adds. */
  lemma {:induction false} GepWithRun(s: State, st: Storage, gep: string, p: Operand, t: Target, idx: seq<Operand>, reset: bool)
    requires Mapped(st, p) && GepFrame(st, gep, idx)
    ensures AllMapped(st, idx) && AllMapped(st, idx[..OffsetNum(t, idx)])
    ensures var n := OffsetNum(t, idx);
      Load(Run(s, GepCodeWith(st, gep, Pointer(p, t), idx, reset)), SlotAddr(s, st.slots[gep].off))
      == Wrap(ValueOf(s, st, p) + Added(Ixs(s, st, idx[..n]), Strides(t, n), 0, reset))
  {
    var n := OffsetNum(t, idx);
    FrameApart(st, gep, idx, n);
    var pro := LoadCode(st, T2, p) + StoreCode(st, T2, gep);
    var code := GepCodeWith(st, gep, Pointer(p, t), idx, reset);
    GepCodeShape(st, gep, p, t, idx, reset);
    Prologue(s, st, gep, p, idx[..n]);
    RunAppend(s, pro, GepLoop(st, gep, idx[..n], Strides(t, n), 0, reset));
    AfterPrologue(s, Run(s, pro), code, st, gep, p, idx[..n], Strides(t, n), reset);
  }

  /** The code for a pointer base: the prologue, then the loop over the
      indices the target has strides for. */
  lemma {:induction false} GepCodeShape(st: Storage, gep: string, p: Operand, t: Target, idx: seq<Operand>, reset: bool)
    requires Mapped(st, p) && gep in st.slots && AllMapped(st, idx)
    ensures AllMapped(st, idx[..OffsetNum(t, idx)])
    ensures var n := OffsetNum(t, idx);
      GepCodeWith(st, gep, Pointer(p, t), idx, reset)
      == LoadCode(st, T2, p) + StoreCode(st, T2, gep) + GepLoop(st, gep, idx[..n], Strides(t, n), 0, reset)
  {
  }

  /** The loop of `parseGEP` run after the prologue adds the offsets to the
      base the prologue stored. */
  lemma {:induction false} AfterPrologue(s: State, t1: State, code: seq<Instr>, st: Storage, gep: string, p: Operand,
                                         ixs: seq<Operand>, strides: seq<int>, reset: bool)
    requires Mapped(st, p) && Apart(st, gep, ixs) && |strides| == |ixs|
    requires AllMapped(st, ixs)
    requires && Get(t1, SP) == Get(s, SP)
             && Get(t1, T2) == ValueOf(s, st, p)
             && Load(t1, SlotAddr(t1, st.slots[gep].off)) == Get(t1, T2)
             && Ixs(t1, st, ixs) == Ixs(s, st, ixs)
    requires Run(s, code) == Run(t1, GepLoop(st, gep, ixs, strides, 0, reset))
    ensures Load(Run(s, code), SlotAddr(s, st.slots[gep].off))
            == Wrap(ValueOf(s, st, p) + Added(Ixs(s, st, ixs), strides, 0, reset))
  {
    LoopRun(t1, st, gep, ixs, strides, 0, reset);
  }

  /** `parseGEP` with the pending offset cleared stores base + the sum of
      index * stride over the indices it walks, modulo 2^32. */
  lemma {:induction false} GepCorrect(s: State, st: Storage, gep: string, p: Operand, t: Target, idx: seq<Operand>)
    requires Mapped(st, p) && GepFrame(st, gep, idx)
    ensures AllMapped(st, idx) && AllMapped(st, idx[..OffsetNum(t, idx)])
    ensures var n := OffsetNum(t, idx);
      Load(Run(s, GepCode(st, gep, Pointer(p, t), idx)), SlotAddr(s, st.slots[gep].off))
      == Wrap(ValueOf(s, st, p) + Offset(Ixs(s, st, idx[..n]), Strides(t, n)))
  {
    var n := OffsetNum(t, idx);
    GepWithRun(s, st, gep, p, t, idx, true);
    var ix := Ixs(s, st, idx[..n]);
    AddedWithReset(ix, Strides(t, n), 0);
    UnknownSum(ValueOf(s, st, p), 0, Added(ix, Strides(t, n), 0, true), Offset(ix, Strides(t, n)));
  }

  /** `parseGEP` as written stores base + the sum of index * stride, modulo
      2^32, whenever no run-time index meets a pending constant offset. */
  lemma {:induction false} GepAsWrittenCorrect(s: State, st: Storage, gep: string, p: Operand, t: Target, idx: seq<Operand>)
    requires Mapped(st, p) && GepFrame(st, gep, idx)
    ensures AllMapped(st, idx) && AllMapped(st, idx[..OffsetNum(t, idx)])
    ensures var n := OffsetNum(t, idx);
      PendingClear(Ixs(s, st, idx[..n]), Strides(t, n), 0) ==>
      Load(Run(s, GepCodeAsWritten(st, gep, Pointer(p, t), idx)), SlotAddr(s, st.slots[gep].off))
      == Wrap(ValueOf(s, st, p) + Offset(Ixs(s, st, idx[..n]), Strides(t, n)))
  {
    var n := OffsetNum(t, idx);
    GepWithRun(s, st, gep, p, t, idx, false);
    GepCorrect(s, st, gep, p, t, idx);
    var ix := Ixs(s, st, idx[..n]);
    if PendingClear(ix, Strides(t, n), 0) {
      AddedPendingClear(ix, Strides(t, n), 0);
      GepWithRun(s, st, gep, p, t, idx, true);
    }
  }

  /** Constant indices become known ones. */
  lemma {:induction false} IxsConst(s: State, st: Storage, idx: seq<Operand>)
    requires AllMapped(st, idx) && forall k :: 0 <= k < |idx| ==> idx[k].Const?
    ensures forall k :: 0 <= k < |idx| ==> Ixs(s, st, idx)[k] == Known(idx[k].v)
    decreases |idx|
  {
    if |idx| > 0 {
      IxsConst(s, st, idx[1..]);
      forall k | 0 <= k < |idx| ensures Ixs(s, st, idx)[k] == Known(idx[k].v) {
        if k > 0 {
          assert Ixs(s, st, idx)[k] == Ixs(s, st, idx[1..])[k - 1];
        }
      }
    }
  }

  /** With constant indices only, the only kind the front end emits,
      `parseGEP` as written stores base + the sum of index * stride,
      modulo 2^32. */
  lemma {:induction false} GepAsWrittenConstCorrect(s: State, st: Storage, gep: string, p: Operand, t: Target, idx: seq<Operand>)
    requires Mapped(st, p) && GepFrame(st, gep, idx)
    requires forall k :: 0 <= k < |idx| ==> idx[k].Const?
    ensures AllMapped(st, idx) && AllMapped(st, idx[..OffsetNum(t, idx)])
    ensures var n := OffsetNum(t, idx);
      Load(Run(s, GepCodeAsWritten(st, gep, Pointer(p, t), idx)), SlotAddr(s, st.slots[gep].off))
      == Wrap(ValueOf(s, st, p) + Offset(Ixs(s, st, idx[..n]), Strides(t, n)))
  {
    var n := OffsetNum(t, idx);
    GepAsWrittenCorrect(s, st, gep, p, t, idx);
    IxsConst(s, st, idx[..n]);
    AllKnownPendingClear(Ixs(s, st, idx[..n]), Strides(t, n), 0);
  }

  /** A GEP of a string constant only puts the string's address in `$a0`. */
  lemma {:induction false} GepString(s: State, st: Storage, gep: string, name: string, idx: seq<Operand>, reset: bool)
    requires gep in st.slots && AllMapped(st, idx)
    ensures var t := Run(s, GepCodeWith(st, gep, StringConst(name), idx, reset));
      Get(t, A0) == Label(s, name) && t.mem == s.mem
  {
    RunOne(s, La(A0, name));
    WrapId(Label(s, name));
  }

  lemma {:induction false} WrapShiftDiffers(a: int, d: int)
    requires 0 < d < Modulus
    ensures Wrap(a + d) != Wrap(a)
  {
    WrapDef(a + d);
    WrapDef(a);
    var k := (a + Half) / Modulus;
    var r := (a + Half) % Modulus;
    assert a + Half == k * Modulus + r;
    if r + d < Modulus {
      Magic.DivByBounds(a + d + Half, Modulus, k);
    } else {
      Magic.DivByBounds(a + d + Half, Modulus, k + 1);
    }
  }

  /** As written, the GEP `a[1][x][0]`-style index list [1, x, 0] on an
      `int[2][3]` target counts the leading constant twice: with x holding
      0 it stores base + 48 where base + 24 is meant. */
  lemma {:induction false} GepAsWrittenCountsTwice(s: State, st: Storage, gep: string, p: Operand, x: string)
    requires Mapped(st, p) && GepFrame(st, gep, [Const(1), Named(x), Const(0)])
    requires x in st.slots && ValueOf(s, st, Named(x)) == 0
    ensures var idx := [Const(1), Named(x), Const(0)];
      var addr := SlotAddr(s, st.slots[gep].off);
      && Load(Run(s, GepCodeAsWritten(st, gep, Pointer(p, ToArray([2, 3])), idx)), addr) == Wrap(ValueOf(s, st, p) + 48)
      && Load(Run(s, GepCode(st, gep, Pointer(p, ToArray([2, 3])), idx)), addr) == Wrap(ValueOf(s, st, p) + 24)
      && Wrap(ValueOf(s, st, p) + 48) != Wrap(ValueOf(s, st, p) + 24)
  {
    var idx := [Const(1), Named(x), Const(0)];
    var t := ToArray([2, 3]);
    assert OffsetNum(t, idx) == 3 && idx[..3] == idx;
    FrameApart(st, gep, idx, 3);
    assert Ixs(s, st, idx) == [Known(1), Unknown(0), Known(0)] by {
      assert idx[1..] == [Named(x), Const(0)];
      assert idx[1..][1..] == [Const(0)];
      assert Ixs(s, st, [Const(0)]) == [Known(0)];
      assert Ixs(s, st, [Named(x), Const(0)]) == [Unknown(0)] + [Known(0)];
    }
    AsWrittenCountsTwice();
    GepWithRun(s, st, gep, p, t, idx, false);
    GepCorrect(s, st, gep, p, t, idx);
    WrapShiftDiffers(ValueOf(s, st, p) + 24, 24);
  }
}
