/** Division lowering (MipsGenModule `optimizeDiv`, `getCTZ`,
    `chooseMultiplier`): a division by a constant becomes a copy, a
    negation, a biased arithmetic shift for powers of two, or a multiply by
    a magic number followed by shifts. */
module DivGen {
  import opened Int32
  import opened Mips
  import opened Base
  import opened Storage
  import opened Magic

  /** `getCTZ(num)`: shifts `num` right (logically) until it is zero and
      counts the shifts after the first; for a nonzero word this is the
      position of its highest set bit. */
  method GetCTZ(num: int) returns (r: nat)
    requires IsWord(num)
    ensures num != 0 ==> Pow2(r) <= Unsigned(num) < Pow2(r + 1)
    ensures num != 0 ==> r == FloorLog2(Unsigned(num))
    ensures num == 0 ==> r == 0
    ensures r <= 31
  {
    var u := Unsigned(num);
    r := 0;
    var n := Int32.Srl(num, 1);
    Pow2Constants();
    ShiftHalves(u, 0);
    while n > 0
      invariant n == u / Pow2(r + 1)
      invariant num != 0 ==> Pow2(r) <= u
      invariant num == 0 ==> r == 0
      decreases n
    {
      CtzStep(u, r, n);
      r := r + 1;
      n := Int32.Srl(n, 1);
    }
    CtzExit(num, u, r);
  }

  lemma CtzStep(u: int, r: nat, n: int)
    requires 0 <= u < Modulus && n == u / Pow2(r + 1) && n > 0
    ensures Pow2(r + 1) <= u
    ensures IsWord(n) && Int32.Srl(n, 1) == u / Pow2(r + 2) && Int32.Srl(n, 1) < n
  {
    DivMod(u, Pow2(r + 1));
    MulAtLeast(n, Pow2(r + 1));
    ShiftHalves(u, r);
    ShiftHalves(u, r + 1);
    WrapId(n / 2);
  }

  lemma CtzExit(num: int, u: int, r: nat)
    requires IsWord(num) && u == Unsigned(num) && u / Pow2(r + 1) <= 0
    requires num != 0 ==> Pow2(r) <= u
    ensures num != 0 ==> u < Pow2(r + 1) && r == FloorLog2(u) && r <= 31
  {
    DivMod(u, Pow2(r + 1));
    if num != 0 {
      FloorLog2Unique(u, r);
      Pow2Constants();
      if r > 31 {
        Pow2Monotone(32, r);
      }
    }
  }

  /** Shifting a non-negative word right by one more bit halves it again. */
  lemma ShiftHalves(u: int, k: nat)
    requires 0 <= u < Modulus
    ensures u / Pow2(k) / 2 == u / Pow2(k + 1)
    ensures IsWord(u / Pow2(k + 1))
  {
    DivDiv(u, Pow2(k), 2);
    assert Pow2(k) * 2 == Pow2(k + 1);
    Pow2Constants();
    DivMod(u, Pow2(k + 1));
    DivLe(u, Pow2(k + 1));
  }

  lemma DivLe(u: int, b: int)
    requires u >= 0 && b >= 2
    ensures u / b <= u / 2
  {
    DivMod(u, b);
    DivMod(u, 2);
    MulLe(u / b, 2, b);
    DivByBounds(u, 2, u / 2);
    if u / b > u / 2 {
      MulLe(2, u / 2 + 1, u / b);
    }
  }

  /** The test of `chooseMultiplier`'s loop: shift p is not yet enough. */
  ghost predicate TooSmall(d: int, p: nat)
    requires 1 <= d
  {
    Pow2(p) <= Nc(d) * Excess(d, p)
  }

  /** `chooseMultiplier(d, 31)`: the smallest p >= 32 with
      2^p > nc * (d - 2^p mod d), the multiplier (2^p + d - 2^p mod d) / d
      truncated to its low 32 bits, and the extra shift p - 32. */
  method ChooseMultiplier(d: int) returns (m: int, sh: nat)
    requires 2 <= d < Half
    ensures IsMagic(d, m, sh + 32)
    ensures 0 < m < Modulus && sh <= 30
    ensures forall q: nat :: 32 <= q < sh + 32 ==> TooSmall(d, q)
  {
    var nc := Half - Half % d - 1;
    var p: nat := 32;
    while Pow2(p) <= nc * (d - Pow2(p) % d)
      invariant 32 <= p <= 62
      invariant forall q: nat :: 32 <= q < p ==> TooSmall(d, q)
      decreases 62 - p
    {
      SearchContinues(d, p);
      p := p + 1;
    }
    sh := p - 32;
    m := Multiplier(d, sh + 32);
    MultiplierFacts(d, sh + 32);
  }

  /** The search never runs past 62: a shift that is too small is below it. */
  lemma SearchContinues(d: int, p: nat)
    requires 2 <= d < Half && p <= 62 && TooSmall(d, p)
    ensures p < 62
  {
    SearchStops(d);
  }

  /** `((2^p + d - 2^p mod d) / d << 32) >>> 32`. */
  function Multiplier(d: int, p: nat): int
    requires d >= 1
  {
    ((Pow2(p) + d - Pow2(p) % d) / d) % Modulus
  }

  lemma MultiplierFacts(d: int, p: nat)
    requires 2 <= d < Half && 32 <= p
    requires !TooSmall(d, p)
    requires p > 32 ==> TooSmall(d, p - 1)
    ensures IsMagic(d, Multiplier(d, p), p) && 0 < Multiplier(d, p) < Modulus
  {
    var full := (Pow2(p) + d - Pow2(p) % d) / d;
    FullIsQuotient(d, p, full);
    MultiplierBound(d, full, p);
    LowBits(full);
  }

  /** `(m << 32) >>> 32` on a 64-bit value keeps its low 32 bits, which
      change nothing once m < 2^32. */
  lemma LowBits(x: int)
    requires 0 <= x < Modulus
    ensures x % Modulus == x
  {
  }

  /** The full-width multiplier times d is 2^p plus the excess. */
  lemma FullIsQuotient(d: int, p: nat, full: int)
    requires 2 <= d && full == (Pow2(p) + d - Pow2(p) % d) / d
    ensures full * d == Pow2(p) + Excess(d, p)
  {
    var k := Pow2(p) / d + 1;
    ExcessMultiple(d, p);
    ExactQuotient(d, k, Pow2(p) + Excess(d, p), full);
  }

  lemma ExactQuotient(d: int, k: int, t: int, full: int)
    requires d > 0 && t == d * k && full == t / d
    ensures full * d == t
  {
    ModOfMultiple(d, k);
  }

  /** The power-of-two kernel for |imm| = 2^l: add 2^l - 1 to a negative
      dividend (the sign word shifted logically), then shift arithmetically. */
  function Pow2Kernel(l: nat): (k: seq<Instr>)
    requires l <= 32
    ensures forall j :: 0 <= j < |k| ==> k[j].Dest() != Some(SP)
  {
    [Sra(T1, T0, 31), Srl(T1, T1, 32 - l), Addu(T0, T0, T1), Sra(T0, T0, l)]
  }

  lemma ZeroShift(k: nat)
    ensures Int32.Srl(0, k) == 0
  {
    DivByBounds(0, Pow2(k), 0);
  }

  /** `-1 >>> (32 - l)` keeps the low l bits: 2^l - 1. */
  lemma AllOnesShift(l: nat)
    requires 1 <= l <= 31
    ensures Int32.Srl(-1, 32 - l) == Pow2(l) - 1
  {
    Pow2Add(32 - l, l);
    Pow2Constants();
    Pow2Monotone(l, 31);
    AllOnesQuotient(Pow2(32 - l), Pow2(l));
    WrapId(Pow2(l) - 1);
  }

  lemma AllOnesQuotient(b: int, pl: int)
    requires b >= 1 && b * pl == Modulus
    ensures (Modulus - 1) / b == pl - 1
  {
    assert (pl - 1) * b == Modulus - b;
    DivByBounds(Modulus - 1, b, pl - 1);
  }

  /** The power-of-two kernel divides by 2^l rounding toward zero. */
  lemma Pow2KernelCorrect(s: State, n: int, l: nat)
    requires IsWord(n) && 1 <= l <= 31
    ensures Get(Run(Set(s, T0, n), Pow2Kernel(l)), T0) == Wrap(TDiv(n, Pow2(l)))
  {
    var s0 := Set(s, T0, n);
    var s1 := Exec(s0, Sra(T1, T0, 31));
    var s2 := Exec(s1, Srl(T1, T1, 32 - l));
    var s3 := Exec(s2, Addu(T0, T0, T1));
    RunFour(s0, Sra(T1, T0, 31), Srl(T1, T1, 32 - l), Addu(T0, T0, T1), Sra(T0, T0, l));
    WrapId(n);
    SignWordStep(s0, n);
    BiasStep(s1, n, l);
    var bias := if n < 0 then Pow2(l) - 1 else 0;
    AddStep(s2, n, bias);
    FinalShiftStep(s3, n, l);
  }

  /** `sra $t1, $t0, 31`: the sign word of n. */
  lemma SignWordStep(t: State, n: int)
    requires Get(t, T0) == n
    ensures Get(Exec(t, Sra(T1, T0, 31)), T1) == if n < 0 then -1 else 0
    ensures Get(Exec(t, Sra(T1, T0, 31)), T0) == n
  {
    Pow2Constants();
  }

  /** `srl $t1, $t1, 32 - l`: the rounding bias, 2^l - 1 or 0. */
  lemma BiasStep(t: State, n: int, l: nat)
    requires 1 <= l <= 31 && Get(t, T1) == (if n < 0 then -1 else 0)
    ensures Get(Exec(t, Srl(T1, T1, 32 - l)), T1) == if n < 0 then Pow2(l) - 1 else 0
    ensures Get(Exec(t, Srl(T1, T1, 32 - l)), T0) == Get(t, T0)
  {
    if n < 0 {
      BiasNeg(t, l);
    } else {
      ZeroShift(32 - l);
    }
  }

  lemma BiasNeg(t: State, l: nat)
    requires 1 <= l <= 31 && Get(t, T1) == -1
    ensures Get(Exec(t, Srl(T1, T1, 32 - l)), T1) == Pow2(l) - 1
  {
    AllOnesShift(l);
    WrapId(Pow2(l) - 1);
  }

  /** `addu $t0, $t0, $t1` with the bias: no wrap-around, as the sum stays
      a word. */
  lemma AddStep(t: State, n: int, b: int)
    requires IsWord(n) && Get(t, T0) == n && Get(t, T1) == b
    requires n < 0 ==> 0 <= b < Half
    requires n >= 0 ==> b == 0
    ensures Get(Exec(t, Addu(T0, T0, T1)), T0) == n + b
  {
    WrapId(n + b);
  }

  /** `sra $t0, $t0, l` after the bias is truncating division by 2^l. */
  lemma FinalShiftStep(t: State, n: int, l: nat)
    requires IsWord(n) && Get(t, T0) == n + (if n < 0 then Pow2(l) - 1 else 0)
    ensures Get(Exec(t, Sra(T0, T0, l)), T0) == Wrap(TDiv(n, Pow2(l)))
  {
    RoundTowardZero(n, Pow2(l));
  }

  /** The constant `load("$t1", m)` puts in `$t1`: m itself when it fits in
      a signed word, else m - 2^32, the same 32 bits. */
  function SignedMultiplier(m: int): (c: int)
    requires 0 <= m < Modulus
    ensures IsWord(c) && Unsigned(c) == m
  {
    if m < Half then m else m - Modulus
  }

  /** `li`, `mult`, `mfhi`, and for a multiplier of 2^31 or more the
      correcting `addu`: `$t2` gets the high word of the product. */
  function MagicHead(m: int): (k: seq<Instr>)
    requires 0 <= m < Modulus
    ensures forall j :: 0 <= j < |k| ==> k[j].Dest() != Some(SP) && k[j].Dest() != Some(T0)
  {
    [Li(T1, SignedMultiplier(m)), Mult(T0, T1), Mfhi(T2)] + (if m < Half then [] else [Addu(T2, T2, T0)])
  }

  /** `sra` by the extra shift, then add the sign bit of n. */
  function MagicTail(sh: nat): (k: seq<Instr>)
    ensures forall j :: 0 <= j < |k| ==> k[j].Dest() != Some(SP)
  {
    [Sra(T2, T2, sh), Srl(T1, T0, 31), Addu(T0, T2, T1)]
  }

  function MagicKernel(m: int, sh: nat): (k: seq<Instr>)
    requires 0 <= m < Modulus
    ensures forall j :: 0 <= j < |k| ==> k[j].Dest() != Some(SP)
  {
    MagicHead(m) + MagicTail(sh)
  }

  /** The high word of a word times a 32-bit unsigned value is a word. */
  lemma ProductHighWord(n: int, m: int)
    requires IsWord(n) && 0 <= m < Modulus
    ensures IsWord((n * m) / Modulus)
  {
    var x := n * m;
    if n >= 0 {
      MulLe(n, m, Modulus);
      MulLe(Modulus, n, Half - 1);
      assert n * Modulus == Modulus * n;
    } else {
      MulLe(-n, m, Modulus);
      MulLe(Modulus, -n, Half);
      assert (-n) * Modulus == Modulus * (-n);
    }
    assert -Half * Modulus <= x < Half * Modulus;
    DivMod(x, Modulus);
  }

  /** Subtracting n * 2^32 lowers the high word by exactly n. */
  lemma HighShift(x: int, n: int)
    ensures (x - n * Modulus) / Modulus == x / Modulus - n
  {
    DivMod(x, Modulus);
    DivByBounds(x - n * Modulus, Modulus, x / Modulus - n);
  }

  /** `li $t1, c; mult $t0, $t1; mfhi $t2`. */
  lemma MultSteps(s: State, n: int, c: int)
    requires IsWord(n) && IsWord(c)
    ensures var t := Run(Set(s, T0, n), [Li(T1, c), Mult(T0, T1), Mfhi(T2)]);
      Get(t, T2) == Wrap((n * c) / Modulus) && Get(t, T0) == n
  {
    var s0 := Set(s, T0, n);
    var s1 := Exec(s0, Li(T1, c));
    var s2 := Exec(s1, Mult(T0, T1));
    RunCons(s0, Li(T1, c), [Mult(T0, T1), Mfhi(T2)]);
    RunCons(s1, Mult(T0, T1), [Mfhi(T2)]);
    WrapId(n);
    WrapId(c);
    assert s2.hi == Wrap((n * c) / Modulus);
    WrapId(s2.hi);
  }

  /** The head leaves floor(n * m / 2^32) in `$t2` and n in `$t0`. */
  lemma HeadCorrect(s: State, n: int, m: int)
    requires IsWord(n) && 0 <= m < Modulus
    ensures var t := Run(Set(s, T0, n), MagicHead(m));
      Get(t, T2) == (n * m) / Modulus && Get(t, T0) == n
  {
    var c := SignedMultiplier(m);
    MultSteps(s, n, c);
    ProductHighWord(n, m);
    if m < Half {
      assert MagicHead(m) == [Li(T1, c), Mult(T0, T1), Mfhi(T2)];
      WrapId((n * m) / Modulus);
    } else {
      HeadLarge(s, n, m);
    }
  }

  /** With m >= 2^31 the signed product is n * m - n * 2^32, so its high
      word is n short; the `addu` puts it back. */
  lemma HeadLarge(s: State, n: int, m: int)
    requires IsWord(n) && Half <= m < Modulus
    ensures var t := Run(Set(s, T0, n), MagicHead(m));
      Get(t, T2) == (n * m) / Modulus && Get(t, T0) == n
  {
    var s0 := Set(s, T0, n);
    var c := m - Modulus;
    var three := [Li(T1, c), Mult(T0, T1), Mfhi(T2)];
    assert MagicHead(m) == three + [Addu(T2, T2, T0)];
    RunSnoc(s0, three, Addu(T2, T2, T0));
    MultSteps(s, n, c);
    ProductHighWord(n, m);
    var h := (n * m) / Modulus;
    HighOfSigned(n, m, c);
    WrapAdd(h - n, n);
    WrapId(h);
  }

  lemma HighOfSigned(n: int, m: int, c: int)
    requires c == m - Modulus
    ensures (n * c) / Modulus == (n * m) / Modulus - n
  {
    assert n * c == n * m - n * Modulus;
    HighShift(n * m, n);
  }

  /** `n >>> 31` is the sign bit of n. */
  lemma SignBit(n: int)
    requires IsWord(n)
    ensures Int32.Srl(n, 31) == if n < 0 then 1 else 0
  {
    Pow2Constants();
    DivByBounds(Unsigned(n), Half, if n < 0 then 1 else 0);
  }

  /** An arithmetic shift of a word is a word. */
  lemma ShiftWord(h: int, k: nat)
    requires IsWord(h)
    ensures IsWord(h / Pow2(k))
  {
    DivWord(h, Pow2(k));
  }

  /** Floor division of a word by a positive number is a word. */
  lemma DivWord(h: int, b: int)
    requires IsWord(h) && b >= 1
    ensures IsWord(h / b)
  {
    var q := h / b;
    DivMod(h, b);
    MulAtLeast(b, Half);
    if q >= Half {
      MulLe(b, Half, q);
    } else if q < -Half {
      MulLe(b, q + 1, -Half);
    }
  }

  /** The tail shifts the high word by `sh` and adds the sign bit of n. */
  lemma TailCorrect(t: State, h: int, n: int, sh: nat)
    requires Get(t, T2) == h && Get(t, T0) == n
    ensures Get(Run(t, MagicTail(sh)), T0) == Wrap(h / Pow2(sh) + if n < 0 then 1 else 0)
  {
    RunThree(t, Sra(T2, T2, sh), Srl(T1, T0, 31), Addu(T0, T2, T1));
    TailSteps(t, h, n, sh);
  }

  lemma TailSteps(t: State, h: int, n: int, sh: nat)
    requires Get(t, T2) == h && Get(t, T0) == n
    ensures var u := Exec(Exec(t, Sra(T2, T2, sh)), Srl(T1, T0, 31));
      Get(u, T2) == h / Pow2(sh) && Get(u, T1) == if n < 0 then 1 else 0
  {
    SraStep(t, h, sh);
    SignBitStep(Exec(t, Sra(T2, T2, sh)), n);
  }

  lemma SraStep(t: State, h: int, sh: nat)
    requires Get(t, T2) == h
    ensures Get(Exec(t, Sra(T2, T2, sh)), T2) == h / Pow2(sh)
    ensures Get(Exec(t, Sra(T2, T2, sh)), T0) == Get(t, T0)
  {
    ShiftWord(h, sh);
    WrapId(h / Pow2(sh));
  }

  lemma SignBitStep(t: State, n: int)
    requires Get(t, T0) == n
    ensures Get(Exec(t, Srl(T1, T0, 31)), T1) == if n < 0 then 1 else 0
    ensures Get(Exec(t, Srl(T1, T0, 31)), T2) == Get(t, T2)
  {
    SignBit(n);
    WrapId(if n < 0 then 1 else 0);
  }

  /** Shifting the high word by `sh` more is dividing the product by
      2^(32 + sh); the sign bit then turns floor into truncation. */
  lemma MagicQuotient(d: int, m: int, sh: nat, n: int)
    requires IsMagic(d, m, sh + 32) && IsWord(n)
    ensures (n * m) / Modulus / Pow2(sh) + (if n < 0 then 1 else 0) == TDiv(n, d)
  {
    Pow2Constants();
    Pow2Add(32, sh);
    DivDiv(n * m, Modulus, Pow2(sh));
    assert n * m == m * n;
    if n >= 0 {
      MagicNonNeg(d, m, sh + 32, n);
    } else {
      MagicNeg(d, m, sh + 32, n);
    }
  }

  /** The magic-number kernel stores truncating n / d for every word n. */
  lemma MagicKernelCorrect(s: State, n: int, d: int, m: int, sh: nat)
    requires IsMagic(d, m, sh + 32) && 0 <= m < Modulus && IsWord(n)
    ensures Get(Run(Set(s, T0, n), MagicKernel(m, sh)), T0) == Wrap(TDiv(n, d))
  {
    var s0 := Set(s, T0, n);
    RunAppend(s0, MagicHead(m), MagicTail(sh));
    HeadCorrect(s, n, m);
    TailCorrect(Run(s0, MagicHead(m)), (n * m) / Modulus, n, sh);
    MagicQuotient(d, m, sh, n);
  }

  /** A kernel that, run on any word n in `$t0`, leaves n / d (truncated,
      wrapped) in `$t0` and never writes `$sp`. */
  ghost predicate DividesBy(k: seq<Instr>, d: int)
    requires d != 0
  {
    && (forall j :: 0 <= j < |k| ==> k[j].Dest() != Some(SP))
    && (forall s: State, n: int :: IsWord(n) ==> Get(Run(Set(s, T0, n), k), T0) == Wrap(TDiv(n, d)))
  }

  /** The common shape of every `optimizeDiv` branch: load n, run the kernel
      for |imm|, negate when imm is negative, store. */
  function DivCode(st: Storage, x: Operand, imm: int, kernel: seq<Instr>, dst: string): seq<Instr>
    requires Mapped(st, x) && dst in st.slots
  {
    LoadCode(st, T0, x) + kernel + (if imm < 0 then [Negu(T0, T0)] else []) + StoreCode(st, T0, dst)
  }

  /** `optimizeDiv(x, imm)`: 1 and -1 copy or negate; otherwise
      `abs = imm > 0 ? imm : -imm` (Java negation, so `Integer.MIN_VALUE`
      stays itself), a power-of-two `abs` gets the shift kernel with
      `l = getCTZ(abs)`, any other the magic kernel of
      `chooseMultiplier(abs, 31)`; a negative imm negates the quotient. The
      stored word is Java's `x / imm` for every x. */
  method OptimizeDiv(st: Storage, x: Operand, imm: int, dst: string) returns (code: seq<Instr>)
    requires IsWord(imm) && imm != 0 && Mapped(st, x)
    requires dst in st.slots && st.slots[dst].StackSlot?
    ensures forall s: State :: Load(Run(s, code), SlotAddr(s, st.slots[dst].off))
                               == Wrap(TDiv(ValueOf(s, st, x), imm))
  {
    var kernel: seq<Instr>;
    if imm == 1 || imm == -1 {
      kernel := [];
      DividesByOne();
    } else {
      var abs := if imm > 0 then imm else Wrap(-imm);
      AbsFacts(imm, abs);
      if AndPred(abs) == 0 {
        var l := GetCTZ(abs);
        Pow2Branch(abs, l);
        kernel := Pow2Kernel(l);
        Pow2DividesBy(l, Abs(imm));
      } else {
        var m, sh := ChooseMultiplier(abs);
        kernel := MagicKernel(m, sh);
        MagicDividesBy(abs, m, sh);
      }
    }
    code := DivCode(st, x, imm, kernel, dst);
    forall s: State
      ensures Load(Run(s, code), SlotAddr(s, st.slots[dst].off)) == Wrap(TDiv(ValueOf(s, st, x), imm))
    {
      DivCodeCorrect(s, st, x, imm, kernel, dst);
    }
  }

  lemma DividesByOne()
    ensures DividesBy([], 1)
  {
    forall s: State, n: int | IsWord(n)
      ensures Get(Run(Set(s, T0, n), []), T0) == Wrap(TDiv(n, 1))
    {
      WrapId(n);
    }
  }

  /** Java's `abs` read as unsigned is |imm|; it is a power of two or a
      divisor the magic search accepts. */
  lemma AbsFacts(imm: int, abs: int)
    requires IsWord(imm) && imm != 0 && imm != 1 && imm != -1
    requires abs == if imm > 0 then imm else Wrap(-imm)
    ensures IsWord(abs) && abs != 0 && Unsigned(abs) == Abs(imm) && Abs(imm) >= 2
    ensures AndPred(abs) != 0 ==> 2 <= abs < Half
  {
    if imm == -Half {
      Pow2Constants();
      assert Wrap(-imm) == imm;
      assert Unsigned(abs) == Pow2(31);
      JavaPow2Test(abs);
    } else if imm < 0 {
      WrapId(-imm);
    }
  }

  /** For a power of two, `getCTZ` finds its exponent, between 1 and 31. */
  lemma Pow2Branch(abs: int, l: nat)
    requires IsWord(abs) && abs != 0 && AndPred(abs) == 0 && Unsigned(abs) >= 2
    requires l == FloorLog2(Unsigned(abs))
    ensures Pow2(l) == Unsigned(abs) && 1 <= l <= 31
  {
    JavaPow2Test(abs);
    Pow2Exponent(Unsigned(abs));
  }

  lemma Pow2DividesBy(l: nat, d: int)
    requires 1 <= l <= 31 && d == Pow2(l)
    ensures DividesBy(Pow2Kernel(l), d)
  {
    forall s: State, n: int | IsWord(n)
      ensures Get(Run(Set(s, T0, n), Pow2Kernel(l)), T0) == Wrap(TDiv(n, d))
    {
      Pow2KernelCorrect(s, n, l);
    }
  }

  lemma MagicDividesBy(d: int, m: int, sh: nat)
    requires IsMagic(d, m, sh + 32) && 0 <= m < Modulus
    ensures DividesBy(MagicKernel(m, sh), d)
  {
    forall s: State, n: int | IsWord(n)
      ensures Get(Run(Set(s, T0, n), MagicKernel(m, sh)), T0) == Wrap(TDiv(n, d))
    {
      MagicKernelCorrect(s, n, d, m, sh);
    }
  }

  /** Negating the quotient by |d| gives the quotient by -|d|. */
  lemma TDivNegDivisor(n: int, d: int)
    requires d > 0
    ensures TDiv(n, -d) == -TDiv(n, d)
  {
  }

  lemma DivCodeCorrect(s: State, st: Storage, x: Operand, imm: int, kernel: seq<Instr>, dst: string)
    requires IsWord(imm) && imm != 0 && Mapped(st, x)
    requires dst in st.slots && st.slots[dst].StackSlot?
    requires DividesBy(kernel, Abs(imm))
    ensures Load(Run(s, DivCode(st, x, imm, kernel, dst)), SlotAddr(s, st.slots[dst].off))
            == Wrap(TDiv(ValueOf(s, st, x), imm))
  {
    var neg := if imm < 0 then [Negu(T0, T0)] else [];
    var k := kernel + neg;
    assert DivCode(st, x, imm, kernel, dst) == LoadCode(st, T0, x) + k + StoreCode(st, T0, dst);
    assert forall j :: 0 <= j < |k| ==> k[j].Dest() != Some(SP);
    LoadComputeStore(s, st, x, k, dst);
    var n := ValueOf(s, st, x);
    var u := Run(Set(s, T0, n), kernel);
    RunAppend(Set(s, T0, n), kernel, neg);
    assert Get(u, T0) == Wrap(TDiv(n, Abs(imm)));
    SignFix(u, n, imm);
  }

  /** The trailing `negu` of a negative divisor turns n / |imm| into n / imm. */
  lemma SignFix(u: State, n: int, imm: int)
    requires imm != 0 && Get(u, T0) == Wrap(TDiv(n, Abs(imm)))
    ensures Get(Run(u, if imm < 0 then [Negu(T0, T0)] else []), T0) == Wrap(TDiv(n, imm))
  {
    if imm < 0 {
      RunOne(u, Negu(T0, T0));
      WrapNeg(TDiv(n, Abs(imm)));
      TDivNegDivisor(n, Abs(imm));
    } else {
      assert Abs(imm) == imm;
    }
  }
}
