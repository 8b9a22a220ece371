/** `parseBr` and `parseConv`: where a branch sends control, and what the
    two conversion instructions store. */
module Branch {
  import opened Int32
  import opened Mips
  import opened Base
  import opened Storage
  import Magic

  // ---------------------------------------------------------------------
  // Branches

  /** An IR branch: conditional on a value, or unconditional. */
  datatype Br = CondBr(cond: Operand, onTrue: string, onFalse: string) | Jump(to: string)

  /** `parseBr`: a conditional branch loads its condition into `$t0`, takes
      `beqz` to the false label and otherwise jumps to the true label. */
  function BrCode(st: Storage, b: Br): seq<Instr>
    requires b.CondBr? ==> Mapped(st, b.cond)
  {
    match b
    case CondBr(c, t, f) => LoadCode(st, T0, c) + [Beqz(T0, f), J(t)]
    case Jump(l) => [J(l)]
  }

  /** The label an IR branch names for a given condition value. */
  function Chosen(b: Br, cond: int): string
  {
    match b
    case CondBr(_, t, f) => if cond != 0 then t else f
    case Jump(l) => l
  }

  /** Straight-line code without `j` or `beqz`. */
  predicate NoJumps(p: seq<Instr>)
  {
    forall k :: 0 <= k < |p| ==> !p[k].J? && !p[k].Beqz?
  }

  /** Code without jumps passes control on to what follows it. */
  lemma {:induction false} TargetAfter(s: State, p: seq<Instr>, q: seq<Instr>)
    requires NoJumps(p)
    ensures Target(s, p + q) == Target(Run(s, p), q)
    decreases |p|
  {
    if |p| > 0 {
      assert (p + q)[0] == p[0];
      assert (p + q)[1..] == p[1..] + q;
      assert NoJumps(p[1..]) by {
        forall k | 0 <= k < |p| - 1 ensures p[1..][k] == p[k + 1] { }
      }
      TargetAfter(Exec(s, p[0]), p[1..], q);
    } else {
      assert p + q == q;
    }
  }

  lemma {:induction false} LoadNoJumps(st: Storage, r: Reg, o: Operand)
    requires Mapped(st, o)
    ensures NoJumps(LoadCode(st, r, o))
  {
  }

  /** The branch reaches the label the IR names for the condition's value. */
  lemma {:induction false} BrTarget(s: State, st: Storage, b: Br)
    requires b.CondBr? ==> Mapped(st, b.cond)
    ensures b.CondBr? ==> Target(s, BrCode(st, b)) == Some(Chosen(b, ValueOf(s, st, b.cond)))
    ensures b.Jump? ==> Target(s, BrCode(st, b)) == Some(b.to)
  {
    if b.CondBr? {
      var load := LoadCode(st, T0, b.cond);
      LoadNoJumps(st, T0, b.cond);
      TargetAfter(s, load, [Beqz(T0, b.onFalse), J(b.onTrue)]);
      LoadEffect(s, st, T0, b.cond);
      WrapId(ValueOf(s, st, b.cond));
      var s1 := Run(s, load);
      assert Get(s1, T0) == ValueOf(s, st, b.cond);
      assert [Beqz(T0, b.onFalse), J(b.onTrue)][1..] == [J(b.onTrue)];
    }
  }

  /** A branch changes no data: the condition's load only writes `$t0`. */
  lemma {:induction false} BrKeepsMemory(s: State, st: Storage, b: Br)
    requires b.CondBr? ==> Mapped(st, b.cond)
    ensures Run(s, BrCode(st, b)).mem == s.mem
  {
    if b.CondBr? {
      var load := LoadCode(st, T0, b.cond);
      LoadEffect(s, st, T0, b.cond);
      RunAppend(s, load, [Beqz(T0, b.onFalse), J(b.onTrue)]);
      RunCons(Run(s, load), Beqz(T0, b.onFalse), [J(b.onTrue)]);
    }
  }

  // ---------------------------------------------------------------------
  // Conversions

  /** The IR conversion operators; `parseConv` handles `zext` and `bitcast`
      and emits nothing for any other. */
  datatype ConvOp = Zext | Bitcast | OtherConv

  /** `zext` clears the upper half of the word with two shifts. */
  const ZextKernel: seq<Instr> := [Instr.Sll(T0, T0, 16), Instr.Srl(T0, T0, 16)]

  function ConvCode(st: Storage, op: ConvOp, src: Operand, dst: string): seq<Instr>
    requires Mapped(st, src) && dst in st.slots
  {
    match op
    case Zext => LoadCode(st, T0, src) + ZextKernel + StoreCode(st, T0, dst)
    case Bitcast => LoadCode(st, T0, src) + StoreCode(st, T0, dst)
    case OtherConv => []
  }

  /** The unsigned reading of a wrapped value is its residue modulo 2^32. */
  lemma {:induction false} UnsignedWrap(y: int)
    ensures Unsigned(Wrap(y)) == y % Modulus
  {
    WrapDef(y);
    var w := Wrap(y);
    if w < 0 {
      assert (y + Half) % Modulus < Half;
    }
    WrapMod(y);
    var k := (y - w) / Modulus;
    Magic.DivMod(y - w, Modulus);
    assert y == w + k * Modulus;
    if w < 0 {
      Magic.DivByBounds(y, Modulus, k - 1);
    } else {
      Magic.DivByBounds(y, Modulus, k);
    }
  }

  /** Shifting left by 16 and logically right by 16 keeps the low half. */
  lemma {:induction false} LowHalf(x: int)
    requires IsWord(x)
    ensures Int32.Srl(Int32.Sll(x, 16), 16) == x % 0x1_0000
  {
    Pow2Constants();
    var h := 0x1_0000;
    var q := x / h;
    var r := x % h;
    Magic.DivMod(x, h);
    assert x * h == q * Modulus + r * h;
    assert 0 <= r * h < Modulus;
    Magic.DivByBounds(x * h, Modulus, q);
    UnsignedWrap(x * h);
    assert Unsigned(Int32.Sll(x, 16)) == r * h;
    assert (r * h) / h == r;
    WrapId(r);
  }

  /** What a conversion stores: `zext` keeps the low 16 bits, `bitcast`
      copies. */
  function ConvValue(op: ConvOp, v: int): int
    requires op != OtherConv
  {
    if op == Zext then v % 0x1_0000 else v
  }

  /** `parseConv` stores the converted value into the result's word. */
  lemma {:induction false} ConvRun(s: State, st: Storage, op: ConvOp, src: Operand, dst: string)
    requires Mapped(st, src) && dst in st.slots && st.slots[dst].StackSlot?
    requires op != OtherConv
    ensures Load(Run(s, ConvCode(st, op, src, dst)), SlotAddr(s, st.slots[dst].off))
      == ConvValue(op, ValueOf(s, st, src))
  {
    var v := ValueOf(s, st, src);
    var s1 := Set(s, T0, v);
    WrapId(v);
    if op == Zext {
      LoadComputeStore(s, st, src, ZextKernel, dst);
      RunCons(s1, Instr.Sll(T0, T0, 16), [Instr.Srl(T0, T0, 16)]);
      LowHalf(v);
    } else {
      LoadComputeStore(s, st, src, [], dst);
      assert LoadCode(st, T0, src) + [] == LoadCode(st, T0, src);
    }
  }

  /** On the booleans `zext` is meant for, the value is unchanged. */
  lemma {:induction false} ZextBool(s: State, st: Storage, src: Operand, dst: string)
    requires Mapped(st, src) && dst in st.slots && st.slots[dst].StackSlot?
    requires ValueOf(s, st, src) == 0 || ValueOf(s, st, src) == 1
    ensures Load(Run(s, ConvCode(st, Zext, src, dst)), SlotAddr(s, st.slots[dst].off)) == ValueOf(s, st, src)
  {
    ConvRun(s, st, Zext, src, dst);
  }
}
