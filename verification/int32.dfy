/** Java `int` and MIPS 32-bit word arithmetic, written out on unbounded
    integers. A word is held by its signed value in [-2^31, 2^31). */
module Int32 {

  const Half: int := 0x8000_0000        // 2^31
  const Modulus: int := 0x1_0000_0000   // 2^32

  predicate IsWord(x: int) { -Half <= x < Half }

  type Word = x: int | -0x8000_0000 <= x < 0x8000_0000

  /** Two's-complement wrap-around of an arbitrary integer into a word:
      add or subtract 2^32 until the value is a word. */
  function Wrap(x: int): (r: int)
    ensures IsWord(r)
    decreases if x >= Half then x + 1 else -x
  {
    if x >= Half then Wrap(x - Modulus)
    else if x < -Half then Wrap(x + Modulus)
    else x
  }

  /** The closed form: the residue of x + 2^31 modulo 2^32, shifted back. */
  lemma {:induction false} WrapDef(x: int)
    ensures Wrap(x) == (x + Half) % Modulus - Half
    decreases if x >= Half then x + 1 else -x
  {
    if x >= Half {
      WrapDef(x - Modulus);
      assert (x - Modulus + Half) % Modulus == (x + Half) % Modulus;
    } else if x < -Half {
      WrapDef(x + Modulus);
      assert (x + Modulus + Half) % Modulus == (x + Half) % Modulus;
    }
  }

  /** A wrapped value differs from the original by a multiple of 2^32. */
  lemma WrapMod(x: int)
    ensures (x - Wrap(x)) % Modulus == 0
  {
    WrapDef(x);
  }

  lemma WrapId(x: int)
    requires IsWord(x)
    ensures Wrap(x) == x
  {
  }

  /** Two integers congruent modulo 2^32 wrap to the same word. */
  lemma WrapCongruent(x: int, y: int)
    requires (x - y) % Modulus == 0
    ensures Wrap(x) == Wrap(y)
  {
    var k := (x - y) / Modulus;
    assert x == y + k * Modulus;
    assert (x + Half) % Modulus == (y + Half) % Modulus;
    WrapDef(x);
    WrapDef(y);
  }

  lemma MultipleMod(j: int)
    ensures (j * Modulus) % Modulus == 0
  {
  }

  lemma WrapAdd(a: int, b: int)
    ensures Wrap(Wrap(a) + b) == Wrap(a + b)
  {
    WrapMod(a);
    WrapCongruent(Wrap(a) + b, a + b);
  }

  lemma WrapMul(a: int, b: int)
    ensures Wrap(Wrap(a) * b) == Wrap(a * b)
  {
    WrapMod(a);
    var k := (a - Wrap(a)) / Modulus;
    assert a - Wrap(a) == k * Modulus;
    assert a * b - Wrap(a) * b == (k * b) * Modulus;
    MultipleMod(k * b);
    WrapCongruent(Wrap(a) * b, a * b);
  }

  lemma WrapNeg(a: int)
    ensures Wrap(-Wrap(a)) == Wrap(-a)
  {
    WrapMod(a);
    var k := (a - Wrap(a)) / Modulus;
    assert a - Wrap(a) == k * Modulus;
    WrapCongruent(-Wrap(a), -a);
  }

  function Abs(x: int): nat { if x < 0 then -x else x }

  /** 2^n */
  function Pow2(n: nat): (r: int)
    ensures r >= 1
  {
    if n == 0 then 1 else 2 * Pow2(n - 1)
  }

  lemma {:induction false} Pow2Add(a: nat, b: nat)
    ensures Pow2(a + b) == Pow2(a) * Pow2(b)
  {
    if a > 0 {
      Pow2Add(a - 1, b);
      assert Pow2(a + b) == 2 * Pow2(a - 1 + b);
    }
  }

  lemma {:induction false} Pow2Monotone(a: nat, b: nat)
    requires a <= b
    ensures Pow2(a) <= Pow2(b)
  {
    if a < b {
      Pow2Monotone(a, b - 1);
    }
  }

  lemma Pow2Constants()
    ensures Pow2(16) == 0x1_0000
    ensures Pow2(31) == Half
    ensures Pow2(32) == Modulus
  {
    Pow2Add(16, 15);
    Pow2Add(16, 16);
    assert Pow2(16) == 0x1_0000 by {
      assert Pow2(4) == 16;
      Pow2Add(4, 4);
      Pow2Add(8, 8);
    }
    assert Pow2(15) == 0x8000 by {
      assert Pow2(7) == 128;
      Pow2Add(8, 7);
      Pow2Add(4, 4);
    }
  }

  /** The unsigned reading of a word, in [0, 2^32). */
  function Unsigned(x: int): (u: int)
    requires IsWord(x)
    ensures 0 <= u < Modulus
    ensures u == x || u == x + Modulus
  {
    if x < 0 then x + Modulus else x
  }

  /** `sll`: logical shift left, bits shifted out are lost. */
  function Sll(x: int, k: nat): int { Wrap(x * Pow2(k)) }

  /** `sra` / Java `>>`: arithmetic shift right, i.e. floor division. */
  function Sra(x: int, k: nat): int { x / Pow2(k) }

  /** `srl` / Java `>>>`: logical shift right of the unsigned reading. */
  function Srl(x: int, k: nat): int
    requires IsWord(x)
  {
    Wrap(Unsigned(x) / Pow2(k))
  }

  /** Division rounding toward zero, as Java `/` and MIPS `div` do. */
  function TDiv(a: int, b: int): (q: int)
    requires b != 0
    ensures Abs(a - b * q) < Abs(b)
    ensures a - b * q == 0 || (a - b * q < 0 <==> a < 0)
  {
    var q0 := Abs(a) / Abs(b);
    TDivFacts(a, b, q0);
    if (a < 0) == (b < 0) then q0 else -q0
  }

  lemma TDivFacts(a: int, b: int, q0: int)
    requires b != 0 && q0 == Abs(a) / Abs(b)
    ensures var q := if (a < 0) == (b < 0) then q0 else -q0;
      Abs(a - b * q) < Abs(b) && (a - b * q == 0 || (a - b * q < 0 <==> a < 0))
  {
    var A, B := Abs(a), Abs(b);
    var r0 := A % B;
    var p := B * q0;
    assert A == p + r0 && 0 <= r0 < B;
    if b > 0 {
      assert B == b;
      if a >= 0 {
        assert b * q0 == p;
      } else {
        assert b * -q0 == -p;
      }
    } else {
      assert B == -b;
      if a >= 0 {
        NegTimesNeg(b, q0);
      } else {
        NegTimesPos(b, q0);
      }
    }
  }

  lemma NegTimesNeg(b: int, q0: int)
    requires b < 0
    ensures b * -q0 == (-b) * q0
  {
  }

  lemma NegTimesPos(b: int, q0: int)
    requires b < 0
    ensures b * q0 == -((-b) * q0)
  {
  }

  /** Remainder taking the sign of the dividend, as Java `%`. */
  function TRem(a: int, b: int): int
    requires b != 0
  {
    a - b * TDiv(a, b)
  }

  /** floor(log2 u) for u >= 1. */
  function FloorLog2(u: int): (r: nat)
    requires u >= 1
    ensures Pow2(r) <= u < Pow2(r + 1)
  {
    if u == 1 then 0 else FloorLog2(u / 2) + 1
  }

  ghost predicate IsPow2(u: int) { exists k: nat :: Pow2(k) == u }

  /** Bitwise AND of two non-negative integers. */
  function AndU(a: nat, b: nat): nat
  {
    if a == 0 || b == 0 then 0
    else 2 * AndU(a / 2, b / 2) + (if a % 2 == 1 && b % 2 == 1 then 1 else 0)
  }

  /** Java's `x & (x - 1)` on a word, read as unsigned. */
  function AndPred(x: int): nat
    requires IsWord(x)
  {
    AndU(Unsigned(x), Unsigned(Wrap(x - 1)))
  }

  lemma {:induction false} AndSelf(v: nat)
    ensures AndU(v, v) == v
  {
    if v > 0 {
      AndSelf(v / 2);
    }
  }

  lemma Pow2Even(k: nat)
    requires k >= 1
    ensures Pow2(k) % 2 == 0 && Pow2(k) / 2 == Pow2(k - 1)
  {
  }

  /** `u & (u - 1) == 0` holds of a positive u exactly when u is a power of two. */
  lemma {:induction false} AndPredPow2(u: int)
    requires u >= 1
    ensures AndU(u, u - 1) == 0 <==> IsPow2(u)
  {
    if u == 1 {
      assert Pow2(0) == 1;
    } else if u % 2 == 0 {
      var v := u / 2;
      assert (u - 1) / 2 == v - 1 && (u - 1) % 2 == 1;
      AndPredPow2(v);
      assert AndU(u, u - 1) == 2 * AndU(v, v - 1);
      if IsPow2(v) {
        var k: nat :| Pow2(k) == v;
        assert Pow2(k + 1) == u;
      }
      if IsPow2(u) {
        var k: nat :| Pow2(k) == u;
        assert k >= 1;
        Pow2Even(k);
        assert Pow2(k - 1) == v;
      }
    } else {
      var v := u / 2;
      assert (u - 1) / 2 == v && (u - 1) % 2 == 0;
      AndSelf(v);
      assert AndU(u, u - 1) == 2 * v;
      if IsPow2(u) {
        var k: nat :| Pow2(k) == u;
        if k >= 1 {
          Pow2Even(k);
        }
        assert false;
      }
    }
  }

  /** The test `(x & (x - 1)) == 0` of a nonzero word holds exactly when its
      unsigned reading is a power of two. */
  lemma JavaPow2Test(x: int)
    requires IsWord(x) && x != 0
    ensures AndPred(x) == 0 <==> IsPow2(Unsigned(x))
  {
    assert Unsigned(Wrap(x - 1)) == Unsigned(x) - 1;
    AndPredPow2(Unsigned(x));
  }

  /** A power of two below 2^32 is 2^k for some k <= 31. */
  lemma Pow2Exponent(u: int)
    requires IsPow2(u) && u < Modulus
    ensures Pow2(FloorLog2(u)) == u && FloorLog2(u) <= 31
  {
    var k: nat :| Pow2(k) == u;
    FloorLog2Unique(u, k);
    Pow2Below32(k);
  }

  lemma Pow2Below32(k: nat)
    requires Pow2(k) < Modulus
    ensures k <= 31
  {
    if k > 31 {
      Pow2Monotone(32, k);
      Pow2Constants();
    }
  }

  /** The exponent between two consecutive powers of two is `FloorLog2`. */
  lemma FloorLog2Unique(u: int, r: nat)
    requires Pow2(r) <= u < Pow2(r + 1)
    ensures FloorLog2(u) == r
  {
    var k := FloorLog2(u);
    if k < r {
      Pow2Monotone(k + 1, r);
    } else if k > r {
      Pow2Monotone(r + 1, k);
    }
  }
}
