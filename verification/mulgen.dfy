/** Multiplication lowering (MipsGenModule `parseBinary` for `mul`,
    `optimizeMul`, `calc`): a multiply by a constant is strength-reduced
    to a copy, a negation or a shift; anything else becomes `mul`. */
module MulGen {
  import opened Int32
  import opened Mips
  import opened Base
  import opened Storage

  /** A constant operand of the IR is a Java `int`. */
  predicate WordConst(o: Operand) { o.Const? ==> IsWord(o.v) }

  /** `calc(b, op)`: both operands into `$t0`/`$t1`, the operation into
      `$t2`, `$t2` stored. */
  function CalcCode(st: Storage, op: Instr, a0: Operand, a1: Operand, dst: string): seq<Instr>
    requires Mapped(st, a0) && Mapped(st, a1) && dst in st.slots
  {
    LoadCode(st, T0, a0) + LoadCode(st, T1, a1) + [op] + StoreCode(st, T2, dst)
  }

  /** Java's `imm & (imm - 1) == 0`, the power-of-two test of `optimizeMul`. */
  predicate PassesPow2Test(imm: int)
    requires IsWord(imm)
  {
    AndPred(imm) == 0
  }

  /** The constants `optimizeMul` handles without `mul`. */
  predicate Shortcut(imm: int)
    requires IsWord(imm)
  {
    imm == 0 || imm == 1 || imm == 2 || imm == -1 || PassesPow2Test(imm)
  }

  /** What a shortcut emits between loading into `$t0` and storing `$t0`;
      `shift` is the amount of the power-of-two case. */
  function MulKernel(imm: int, shift: nat): (k: seq<Instr>)
    ensures forall j :: 0 <= j < |k| ==> k[j].Dest() == Some(T0)
  {
    if imm == 0 || imm == 1 then []
    else if imm == 2 then [Sll(T0, T0, 1)]
    else if imm == -1 then [Negu(T0, T0)]
    else [Sll(T0, T0, shift)]
  }

  /** The body of `optimizeMul(x, imm, b)` where `b` has operands `a0`, `a1`,
      parameterised by the shift amount the power-of-two branch emits. The
      constant 0 is loaded in place of `x`. */
  function OptimizeMulWith(st: Storage, x: Operand, imm: int, shift: nat,
                           a0: Operand, a1: Operand, dst: string): seq<Instr>
    requires IsWord(imm) && Mapped(st, x) && Mapped(st, a0) && Mapped(st, a1) && dst in st.slots
  {
    if Shortcut(imm) then
      LoadCode(st, T0, if imm == 0 then Const(0) else x) + MulKernel(imm, shift) + StoreCode(st, T0, dst)
    else CalcCode(st, Mul(T2, T0, T1), a0, a1, dst)
  }

  /** The shift Java computes as `(int) (Math.log(imm) / Math.log(2))`, taking
      the quotient of logarithms as exact: log2 of a positive constant; for
      a negative one the logarithm is NaN and the cast yields 0. */
  function JavaLogShift(imm: int): nat
    requires IsWord(imm)
  {
    if imm > 0 then FloorLog2(imm) else 0
  }

  /** The shift that makes the power-of-two branch exact: the exponent of
      the constant's unsigned reading. */
  function ExactShift(imm: int): nat
    requires IsWord(imm)
  {
    if imm == 0 then 0 else FloorLog2(Unsigned(imm))
  }

  function OptimizeMulAsWritten(st: Storage, x: Operand, imm: int, a0: Operand, a1: Operand, dst: string): seq<Instr>
    requires IsWord(imm) && Mapped(st, x) && Mapped(st, a0) && Mapped(st, a1) && dst in st.slots
  {
    OptimizeMulWith(st, x, imm, JavaLogShift(imm), a0, a1, dst)
  }

  function OptimizeMul(st: Storage, x: Operand, imm: int, a0: Operand, a1: Operand, dst: string): seq<Instr>
    requires IsWord(imm) && Mapped(st, x) && Mapped(st, a0) && Mapped(st, a1) && dst in st.slots
  {
    OptimizeMulWith(st, x, imm, ExactShift(imm), a0, a1, dst)
  }

  /** `parseBinary` for `mul`: a constant left operand is preferred, then a
      constant right operand, else the generic `mul`. */
  function ParseMul(st: Storage, a0: Operand, a1: Operand, dst: string): seq<Instr>
    requires WordConst(a0) && WordConst(a1)
    requires Mapped(st, a0) && Mapped(st, a1) && dst in st.slots
  {
    if a0.Const? then OptimizeMulAsWritten(st, a1, a0.v, a0, a1, dst)
    else if a1.Const? then OptimizeMulAsWritten(st, a0, a1.v, a0, a1, dst)
    else CalcCode(st, Mul(T2, T0, T1), a0, a1, dst)
  }

  /** `parseBinary` for `mul` on the corrected `optimizeMul`. */
  function ParseMulExact(st: Storage, a0: Operand, a1: Operand, dst: string): seq<Instr>
    requires WordConst(a0) && WordConst(a1)
    requires Mapped(st, a0) && Mapped(st, a1) && dst in st.slots
  {
    if a0.Const? then OptimizeMul(st, a1, a0.v, a0, a1, dst)
    else if a1.Const? then OptimizeMul(st, a0, a1.v, a0, a1, dst)
    else CalcCode(st, Mul(T2, T0, T1), a0, a1, dst)
  }

  /** The generic `mul` path stores the wrapped product of the two operands
      (loading the second operand does not disturb the first). */
  lemma CalcMulCorrect(s: State, st: Storage, a0: Operand, a1: Operand, dst: string)
    requires Mapped(st, a0) && Mapped(st, a1) && dst in st.slots && st.slots[dst].StackSlot?
    ensures Load(Run(s, CalcCode(st, Mul(T2, T0, T1), a0, a1, dst)), SlotAddr(s, st.slots[dst].off))
            == Wrap(ValueOf(s, st, a0) * ValueOf(s, st, a1))
  {
    var v0, v1 := ValueOf(s, st, a0), ValueOf(s, st, a1);
    var s2 := Set(Set(s, T0, v0), T1, v1);
    CalcShape(s, st, Mul(T2, T0, T1), a0, a1, dst);
    var s3 := Exec(s2, Mul(T2, T0, T1));
    MulStep(s2, v0, v1);
    assert Get(s3, SP) == Get(s, SP);
    WrapId(Get(s3, T2));
    StoreStackEffect(s3, st, T2, dst);
  }

  /** `calc` runs its operation on the state with both operands loaded, then
      the store. */
  lemma CalcShape(s: State, st: Storage, op: Instr, a0: Operand, a1: Operand, dst: string)
    requires Mapped(st, a0) && Mapped(st, a1) && dst in st.slots
    ensures Run(s, CalcCode(st, op, a0, a1, dst))
            == Run(Exec(Set(Set(s, T0, ValueOf(s, st, a0)), T1, ValueOf(s, st, a1)), op), StoreCode(st, T2, dst))
  {
    var l := LoadCode(st, T0, a0) + LoadCode(st, T1, a1);
    LoadPair(s, st, a0, a1);
    RunAppend(s, l, [op]);
    RunAppend(s, l + [op], StoreCode(st, T2, dst));
  }

  lemma MulStep(s: State, v0: int, v1: int)
    requires Get(s, T0) == v0 && Get(s, T1) == v1
    ensures Get(Exec(s, Mul(T2, T0, T1)), T2) == Wrap(v0 * v1)
    ensures Get(Exec(s, Mul(T2, T0, T1)), SP) == Get(s, SP)
  {
  }

  /** For a constant that passes the power-of-two test, shifting by
      `ExactShift` multiplies by it, modulo 2^32. */
  lemma ExactShiftMultiplies(v: int, imm: int)
    requires IsWord(imm) && imm != 0 && AndPred(imm) == 0
    ensures Wrap(v * Pow2(ExactShift(imm))) == Wrap(v * imm)
  {
    var u := Unsigned(imm);
    JavaPow2Test(imm);
    Pow2Exponent(u);
    assert Pow2(ExactShift(imm)) == u;
    if imm < 0 {
      assert u == imm + Modulus;
      AddModulus(v, imm, u);
      MultipleMod(v);
      WrapCongruent(v * u, v * imm);
    }
  }

  lemma AddModulus(v: int, imm: int, u: int)
    requires u == imm + Modulus
    ensures v * u - v * imm == v * Modulus
  {
  }

  /** Each shortcut kernel, run on `x` in `$t0`, leaves `x * imm` (wrapped)
      in `$t0`. For 0 the value in `$t0` is the loaded constant 0. */
  lemma KernelCorrect(s: State, v: int, imm: int)
    requires IsWord(v) && IsWord(imm) && Shortcut(imm)
    ensures var w := if imm == 0 then 0 else v;
      Get(Run(Set(s, T0, w), MulKernel(imm, ExactShift(imm))), T0) == Wrap(v * imm)
  {
    WrapId(v);
    if imm == 0 || imm == 1 {
    } else if imm == 2 {
      ShiftStep(s, v, 1);
    } else if imm == -1 {
      NegStep(s, v);
    } else {
      Pow2Kernel(s, v, imm);
    }
  }

  /** The power-of-two kernel: one `sll` by the exact exponent. */
  lemma Pow2Kernel(s: State, v: int, imm: int)
    requires IsWord(v) && IsWord(imm) && imm != 0 && PassesPow2Test(imm)
    ensures Get(Run(Set(s, T0, v), [Sll(T0, T0, ExactShift(imm))]), T0) == Wrap(v * imm)
  {
    WrapId(v);
    ShiftStep(s, v, ExactShift(imm));
    ExactShiftMultiplies(v, imm);
  }

  lemma ShiftStep(s: State, v: int, k: nat)
    ensures Get(Run(Set(s, T0, v), [Sll(T0, T0, k)]), T0) == Wrap(Wrap(v) * Pow2(k))
  {
    RunOne(Set(s, T0, v), Sll(T0, T0, k));
  }

  lemma NegStep(s: State, v: int)
    requires IsWord(v)
    ensures Get(Run(Set(s, T0, v), [Negu(T0, T0)]), T0) == Wrap(v * -1)
  {
    RunOne(Set(s, T0, v), Negu(T0, T0));
    WrapId(v);
  }

  /** `optimizeMul` stores `x * imm` wrapped to 32 bits, for every constant
      it handles without `mul`, including `Integer.MIN_VALUE`. */
  lemma OptimizeMulCorrect(s: State, st: Storage, x: Operand, imm: int, a0: Operand, a1: Operand, dst: string)
    requires IsWord(imm) && Mapped(st, x) && Mapped(st, a0) && Mapped(st, a1)
    requires dst in st.slots && st.slots[dst].StackSlot?
    requires Shortcut(imm)
    ensures Load(Run(s, OptimizeMul(st, x, imm, a0, a1, dst)), SlotAddr(s, st.slots[dst].off))
            == Wrap(ValueOf(s, st, x) * imm)
  {
    var y := if imm == 0 then Const(0) else x;
    LoadComputeStore(s, st, y, MulKernel(imm, ExactShift(imm)), dst);
    KernelCorrect(s, ValueOf(s, st, x), imm);
  }

  /** A word other than 0 that passes `imm & (imm - 1) == 0` is positive or
      `Integer.MIN_VALUE`: a negative one reads unsigned as a power of two
      of at least 2^31. */
  lemma Pow2TestSign(imm: int)
    requires IsWord(imm) && imm != 0 && AndPred(imm) == 0
    ensures imm > 0 || imm == -Half
  {
    if imm < 0 {
      var u := Unsigned(imm);
      JavaPow2Test(imm);
      Pow2Exponent(u);
      Pow2Constants();
      FloorLog2Unique(u, 31);
    }
  }

  /** The shift Java computes is the exact one for every constant except
      `Integer.MIN_VALUE`, and only there do the two lowerings differ. */
  lemma AsWrittenAgrees(st: Storage, x: Operand, imm: int, a0: Operand, a1: Operand, dst: string)
    requires IsWord(imm) && Mapped(st, x) && Mapped(st, a0) && Mapped(st, a1) && dst in st.slots
    ensures OptimizeMulAsWritten(st, x, imm, a0, a1, dst) == OptimizeMul(st, x, imm, a0, a1, dst)
            <==> imm != -Half
  {
    if imm == -Half {
      MinValueDiffers(st, x, imm, a0, a1, dst);
    } else if imm != 0 && PassesPow2Test(imm) {
      Pow2TestSign(imm);
    }
  }

  /** For `Integer.MIN_VALUE` the code as written shifts by 0 where the
      exact shift is 31. */
  lemma MinValueDiffers(st: Storage, x: Operand, imm: int, a0: Operand, a1: Operand, dst: string)
    requires imm == -Half
    requires Mapped(st, x) && Mapped(st, a0) && Mapped(st, a1) && dst in st.slots
    ensures OptimizeMulAsWritten(st, x, imm, a0, a1, dst) != OptimizeMul(st, x, imm, a0, a1, dst)
  {
    MinValueCode(st, x, imm, a0, a1, dst);
    MinValueExactCode(st, x, imm, a0, a1, dst);
    MiddleDiffers(LoadCode(st, T0, x), Sll(T0, T0, 0), Sll(T0, T0, 31), StoreCode(st, T0, dst));
  }

  lemma MiddleDiffers(p: seq<Instr>, a: Instr, b: Instr, q: seq<Instr>)
    requires a != b
    ensures p + [a] + q != p + [b] + q
  {
    assert (p + [a] + q)[|p|] == a;
    assert (p + [b] + q)[|p|] == b;
  }

  /** `parseBinary` for `mul` as written: the stored word is the wrapped
      product, except when the constant it hands to `optimizeMul` is
      `Integer.MIN_VALUE`, where the other operand is stored unchanged. */
  lemma ParseMulCorrect(s: State, st: Storage, a0: Operand, a1: Operand, dst: string)
    requires WordConst(a0) && WordConst(a1)
    requires Mapped(st, a0) && Mapped(st, a1) && dst in st.slots && st.slots[dst].StackSlot?
    ensures var v0, v1 := ValueOf(s, st, a0), ValueOf(s, st, a1);
      Load(Run(s, ParseMul(st, a0, a1, dst)), SlotAddr(s, st.slots[dst].off))
      == if a0 == Const(-Half) then v1
         else if !a0.Const? && a1 == Const(-Half) then v0
         else Wrap(v0 * v1)
  {
    if a0.Const? || a1.Const? {
      var x := if a0.Const? then a1 else a0;
      var imm := if a0.Const? then a0.v else a1.v;
      if imm == -Half {
        MinValueCode(st, x, imm, a0, a1, dst);
        ShiftByZero(s, st, x, dst);
      } else {
        AsWrittenAgrees(st, x, imm, a0, a1, dst);
        ParseMulExactCorrect(s, st, a0, a1, dst);
      }
    } else {
      CalcMulCorrect(s, st, a0, a1, dst);
    }
  }

  /** Whichever path the corrected `parseBinary` takes for `mul`, the stored
      word is the wrapped product of the two operands. */
  lemma ParseMulExactCorrect(s: State, st: Storage, a0: Operand, a1: Operand, dst: string)
    requires WordConst(a0) && WordConst(a1)
    requires Mapped(st, a0) && Mapped(st, a1) && dst in st.slots && st.slots[dst].StackSlot?
    ensures Load(Run(s, ParseMulExact(st, a0, a1, dst)), SlotAddr(s, st.slots[dst].off))
            == Wrap(ValueOf(s, st, a0) * ValueOf(s, st, a1))
  {
    if a0.Const? {
      var imm := a0.v;
      WrapId(imm);
      if Shortcut(imm) {
        OptimizeMulCorrect(s, st, a1, imm, a0, a1, dst);
        assert ValueOf(s, st, a0) == imm;
      } else {
        CalcMulCorrect(s, st, a0, a1, dst);
      }
    } else if a1.Const? {
      var imm := a1.v;
      WrapId(imm);
      if Shortcut(imm) {
        OptimizeMulCorrect(s, st, a0, imm, a0, a1, dst);
      } else {
        CalcMulCorrect(s, st, a0, a1, dst);
      }
    } else {
      CalcMulCorrect(s, st, a0, a1, dst);
    }
  }

  /** As written, `x * MIN_VALUE` with the constant as the right operand
      and x worth 1 at run time stores 1 instead of MIN_VALUE; the
      corrected lowering stores MIN_VALUE. */
  lemma MulMinValueCounterexample(s: State, st: Storage, x: Operand, dst: string)
    requires x.Named? && Mapped(st, x) && ValueOf(s, st, x) == 1
    requires dst in st.slots && st.slots[dst].StackSlot?
    ensures IsWord(-Half)
    ensures Load(Run(s, ParseMul(st, x, Const(-Half), dst)), SlotAddr(s, st.slots[dst].off)) == 1
    ensures Load(Run(s, ParseMulExact(st, x, Const(-Half), dst)), SlotAddr(s, st.slots[dst].off)) == -Half
  {
    ParseMulCorrect(s, st, x, Const(-Half), dst);
    ParseMulExactCorrect(s, st, x, Const(-Half), dst);
    WrapId(-Half);
  }

  /** A shift by 0 between load and store copies the operand. */
  lemma ShiftByZero(s: State, st: Storage, x: Operand, dst: string)
    requires Mapped(st, x) && dst in st.slots && st.slots[dst].StackSlot?
    ensures Load(Run(s, LoadCode(st, T0, x) + [Sll(T0, T0, 0)] + StoreCode(st, T0, dst)),
                 SlotAddr(s, st.slots[dst].off)) == ValueOf(s, st, x)
  {
    LoadComputeStore(s, st, x, [Sll(T0, T0, 0)], dst);
    ShiftStep(s, ValueOf(s, st, x), 0);
    WrapId(ValueOf(s, st, x));
  }

  /** For `Integer.MIN_VALUE` the code as written is a shift by 0. */
  lemma MinValueCode(st: Storage, x: Operand, imm: int, a0: Operand, a1: Operand, dst: string)
    requires imm == -Half
    requires Mapped(st, x) && Mapped(st, a0) && Mapped(st, a1) && dst in st.slots
    ensures OptimizeMulAsWritten(st, x, imm, a0, a1, dst)
            == LoadCode(st, T0, x) + [Sll(T0, T0, 0)] + StoreCode(st, T0, dst)
  {
    MinValueIsShortcut(imm);
  }

  /** For `Integer.MIN_VALUE` the corrected code is a shift by 31. */
  lemma MinValueExactCode(st: Storage, x: Operand, imm: int, a0: Operand, a1: Operand, dst: string)
    requires imm == -Half
    requires Mapped(st, x) && Mapped(st, a0) && Mapped(st, a1) && dst in st.slots
    ensures OptimizeMul(st, x, imm, a0, a1, dst)
            == LoadCode(st, T0, x) + [Sll(T0, T0, 31)] + StoreCode(st, T0, dst)
  {
    MinValueIsShortcut(imm);
    assert ExactShift(imm) == 31 by {
      Pow2Constants();
      FloorLog2Unique(Unsigned(imm), 31);
    }
  }

  /** `Integer.MIN_VALUE` passes `imm & (imm - 1) == 0`, and its Java shift
      amount is 0. */
  lemma MinValueIsShortcut(imm: int)
    requires imm == -Half
    ensures PassesPow2Test(imm) && JavaLogShift(imm) == 0
  {
    assert Unsigned(imm) == Pow2(31) by { Pow2Constants(); }
    assert Unsigned(Wrap(imm - 1)) == Unsigned(imm) - 1;
    AndPredPow2(Unsigned(imm));
  }
}
