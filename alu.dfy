/**
 * The arithmetic/logic unit: 32-bit add and subtract built on an explicit
 * ripple-carry adder, multiply keeping the low word, unsigned divide, and the
 * Z/N/C/V flags each operation produces.
 *
 * Words are naturals below 2^32; the signed reading of a word is always
 * derived from its bit pattern (ToSigned), never from a native signed type.
 */
module Alu {

  /** 2^32, the number of distinct 32-bit words. */
  const WordModulus: nat := 0x1_0000_0000
  /** 2^31, the weight of bit 31 (the two's-complement sign bit). */
  const SignBit: nat := 0x8000_0000
  /** Number of bits the ripple-carry adder walks through. */
  const WordBits: nat := 32

  /** An exact 32-bit unsigned bit pattern. */
  type Word = x: nat | x < 0x1_0000_0000

  /** A single bit. */
  type Bit = b: nat | b < 2

  /** The four condition flags: zero, negative, carry, overflow. */
  datatype Flags = Flags(z: bool, n: bool, c: bool, v: bool)

  /** The all-clear flag set a freshly zeroed CPU starts with. */
  const ClearFlags: Flags := Flags(false, false, false, false)

  /** What every ALU operation delivers: the result word and the new flags. */
  datatype AluResult = AluResult(value: Word, flags: Flags)

  function Pow2(i: nat): (p: nat)
    ensures p > 0
  {
    if i == 0 then 1 else 2 * Pow2(i - 1)
  }

  /** Bit i of x, that is (x >> i) & 1. */
  function BitOf(x: nat, i: nat): Bit
  {
    (x / Pow2(i)) % 2
  }

  function Xor(x: Bit, y: Bit): Bit { if x == y then 0 else 1 }
  function And(x: Bit, y: Bit): Bit { if x == 1 && y == 1 then 1 else 0 }
  function Or(x: Bit, y: Bit): Bit { if x == 1 || y == 1 then 1 else 0 }

  /** Bitwise complement ~b of a word. */
  function Not(b: Word): Word
  {
    WordModulus - 1 - b
  }

  /** The sign bit of a word, (w >> 31) & 1 (SignBit is 1 << 31). */
  function Sign(w: Word): Bit
  {
    (w / SignBit) % 2
  }

  /** The two's-complement value a word stands for. */
  function ToSigned(w: Word): int
  {
    if w < SignBit then w else w - WordModulus
  }

  /** Truncation of any integer to its low 32 bits. */
  function Wrap(x: int): Word
  {
    x % WordModulus
  }

  /** Whether x fits a signed 32-bit integer. */
  predicate InSignedRange(x: int)
  {
    -(SignBit as int) <= x < SignBit
  }

  // ---------------------------------------------------------------------------
  // Arithmetic facts the adder proof rests on
  // ---------------------------------------------------------------------------

  lemma {:induction false} Pow2Add(m: nat, n: nat)
    ensures Pow2(m + n) == Pow2(m) * Pow2(n)
  {
    if m > 0 {
      Pow2Add(m - 1, n);
    }
  }

  lemma Pow2Values()
    ensures Pow2(31) == SignBit && Pow2(32) == WordModulus
  {
    assert Pow2(4) == 16;
    Pow2Add(4, 4);
    Pow2Add(8, 8);
    Pow2Add(16, 16);
    Pow2Add(16, 8);
    Pow2Add(24, 4);
    assert Pow2(3) == 8;
    Pow2Add(28, 3);
  }

  lemma Pow2AtMostModulus(i: nat)
    requires i <= WordBits
    ensures Pow2(i) <= WordModulus
  {
    Pow2Add(i, WordBits - i);
    Pow2Values();
    MulAtLeast(Pow2(WordBits - i), Pow2(i));
  }

  /** A positive multiple of a positive number is at least that number. */
  lemma MulAtLeast(k: int, d: int)
    requires k >= 1 && d > 0
    ensures k * d >= d
  {
    assert k * d == d + (k - 1) * d;
    assert (k - 1) * d >= 0;
  }

  /** Euclidean division is determined by quotient and remainder. */
  lemma DivModUnique(x: int, d: int, q: int, r: int)
    requires d > 0 && 0 <= r < d && x == q * d + r
    ensures x / d == q && x % d == r
  {
    var q', r' := x / d, x % d;
    assert x == q' * d + r';
    assert (q - q') * d == r' - r;
    if q' < q {
      MulAtLeast(q - q', d);
    } else if q' > q {
      MulAtLeast(q' - q, d);
    }
  }

  /** Unsigned floor division brackets the dividend between two multiples. */
  lemma FloorDiv(a: nat, b: nat)
    requires b > 0
    ensures a / b <= a
    ensures (a / b) * b <= a < (a / b + 1) * b
    ensures a / b == 0 <==> a < b
  {
    var q, r := a / b, a % b;
    assert a == q * b + r && 0 <= r < b;
    assert (q + 1) * b == q * b + b;
    if q > 0 {
      MulAtLeast(b, q);
      assert q * b >= q;
      MulAtLeast(q, b);
      assert q * b >= b;
    }
    if a < b {
      DivModUnique(a, b, 0, a);
    }
  }

  /** Taking one more low bit of x adds bit i at weight 2^i. */
  lemma LowBitsStep(x: nat, i: nat)
    ensures x % Pow2(i + 1) == x % Pow2(i) + BitOf(x, i) * Pow2(i)
  {
    var p := Pow2(i);
    var q := x / p;
    assert x == q * p + x % p;
    assert q == (q / 2) * 2 + q % 2;
    assert x == (q / 2) * (2 * p) + ((q % 2) * p + x % p) by {
      calc {
        x;
        q * p + x % p;
        ((q / 2) * 2 + q % 2) * p + x % p;
        (q / 2) * (2 * p) + ((q % 2) * p + x % p);
      }
    }
    DivModUnique(x, 2 * p, q / 2, (q % 2) * p + x % p);
  }

  /** The per-bit logic of a full adder: sum and carry-out encode a + b + c. */
  lemma FullAdder(a: Bit, b: Bit, c: Bit)
    ensures a + b + c == Xor(Xor(a, b), c) + 2 * Or(And(a, b), And(c, Xor(a, b)))
  {
  }

  /** One stage of the adder keeps "low bits of the operands = result + carry * 2^i". */
  lemma RippleStep(a: Word, b: Word, carryIn: Bit, i: nat, result: nat, carry: Bit)
    requires result < Pow2(i)
    requires a % Pow2(i) + b % Pow2(i) + carryIn == result + carry * Pow2(i)
    ensures var aBit, bBit := BitOf(a, i), BitOf(b, i);
            var sumBit := Xor(Xor(aBit, bBit), carry);
            var carryOut := Or(And(aBit, bBit), And(carry, Xor(aBit, bBit)));
            && result + sumBit * Pow2(i) < Pow2(i + 1)
            && a % Pow2(i + 1) + b % Pow2(i + 1) + carryIn
               == (result + sumBit * Pow2(i)) + carryOut * Pow2(i + 1)
  {
    var p := Pow2(i);
    assert Pow2(i + 1) == 2 * p;
    var aBit, bBit := BitOf(a, i), BitOf(b, i);
    var sumBit := Xor(Xor(aBit, bBit), carry);
    var carryOut := Or(And(aBit, bBit), And(carry, Xor(aBit, bBit)));
    LowBitsStep(a, i);
    LowBitsStep(b, i);
    FullAdder(aBit, bBit, carry);
    var s: nat, sb: nat, co: nat := aBit + bBit + carry, sumBit, carryOut;
    assert s * p == sb * p + co * (2 * p) by {
      assert s == sb + 2 * co;
    }
    assert a % (2 * p) + b % (2 * p) + carryIn == result + carry * p + aBit * p + bBit * p;
    assert carry * p + aBit * p + bBit * p == s * p;
  }

  // ---------------------------------------------------------------------------
  // The ripple-carry adder
  // ---------------------------------------------------------------------------

  /**
   * Adds a, b and a carry-in bit by bit, from bit 0 to bit 31, the way a
   * hardware ripple-carry adder does. The result is the sum modulo 2^32 and
   * the final carry is the carry out of bit 31.
   */
  method RippleAdd(a: Word, b: Word, carryIn: Bit) returns (result: Word, carry: Bit)
    ensures result == (a + b + carryIn) % WordModulus
    ensures carry == 1 <==> a + b + carryIn >= WordModulus
  {
    result, carry := 0, carryIn;
    var i: nat := 0;
    while i < WordBits
      invariant i <= WordBits
      invariant result < Pow2(i)
      invariant a % Pow2(i) + b % Pow2(i) + carryIn == result + carry * Pow2(i)
    {
      var aBit := BitOf(a, i);
      var bBit := BitOf(b, i);
      var sumBit := Xor(Xor(aBit, bBit), carry);
      var carryOut := Or(And(aBit, bBit), And(carry, Xor(aBit, bBit)));
      RippleStep(a, b, carryIn, i, result, carry);
      Pow2AtMostModulus(i + 1);
      // bits i and above of result are still clear, so OR-ing in the sum bit adds it
      result := result + sumBit * Pow2(i);
      carry := carryOut;
      i := i + 1;
    }
    Pow2Values();
    DivModUnique(a, WordModulus, 0, a);
    DivModUnique(b, WordModulus, 0, b);
    DivModUnique(a + b + carryIn, WordModulus, carry, result);
  }

  // ---------------------------------------------------------------------------
  // Reference meaning of the four operations
  // ---------------------------------------------------------------------------

  /**
   * Addition as a 32-bit machine defines it: the sum modulo 2^32, carry when
   * the unsigned sum does not fit, overflow when the signed sum does not fit.
   */
  function AddSpec(a: Word, b: Word): AluResult
  {
    var r := Wrap(a + b);
    AluResult(r, Flags(z := r == 0, n := ToSigned(r) < 0,
                       c := a + b >= WordModulus,
                       v := !InSignedRange(ToSigned(a) + ToSigned(b))))
  }

  /**
   * Subtraction as a 32-bit machine defines it: the difference modulo 2^32,
   * carry when no borrow is needed, overflow when the signed difference does
   * not fit.
   */
  function SubSpec(a: Word, b: Word): AluResult
  {
    var r := Wrap(a - b);
    AluResult(r, Flags(z := r == 0, n := ToSigned(r) < 0,
                       c := a >= b,
                       v := !InSignedRange(ToSigned(a) - ToSigned(b))))
  }

  // ---------------------------------------------------------------------------
  // Facts about signs and the source's flag rules
  // ---------------------------------------------------------------------------

  /** Bit 31 is set exactly when the word reads as a negative number. */
  lemma SignBitIsNegative(w: Word)
    ensures Sign(w) == 1 <==> w >= SignBit
    ensures Sign(w) == 1 <==> ToSigned(w) < 0
  {
    if w >= SignBit {
      DivModUnique(w, SignBit, 1, w - SignBit);
    } else {
      DivModUnique(w, SignBit, 0, w);
    }
  }

  /** Reading a word as signed and truncating back gives the word itself. */
  lemma WrapToSigned(w: Word)
    ensures Wrap(ToSigned(w)) == w
    ensures InSignedRange(ToSigned(w))
  {
    if w >= SignBit {
      DivModUnique(w - WordModulus, WordModulus, -1, w);
    }
  }

  /** A value in the signed range survives truncation and signed reading. */
  lemma ToSignedWrap(x: int)
    requires InSignedRange(x)
    ensures ToSigned(Wrap(x)) == x
  {
    if x < 0 {
      DivModUnique(x, WordModulus, -1, x + WordModulus);
    } else {
      DivModUnique(x, WordModulus, 0, x);
    }
  }

  /**
   * The addition overflow rule of the source (operands of equal sign giving
   * a result of the other sign) holds exactly when the signed sum does not
   * fit in 32 bits.
   */
  lemma {:induction false} AddOverflowRule(a: Word, b: Word)
    ensures (Sign(a) == Sign(b) && Sign(Wrap(a + b)) != Sign(a))
            <==> !InSignedRange(ToSigned(a) + ToSigned(b))
  {
    var r := Wrap(a + b);
    SignBitIsNegative(a);
    SignBitIsNegative(b);
    SignBitIsNegative(r);
    if a + b >= WordModulus {
      DivModUnique(a + b, WordModulus, 1, a + b - WordModulus);
    } else {
      DivModUnique(a + b, WordModulus, 0, a + b);
    }
  }

  /**
   * The subtraction overflow rule of the source (operands of different sign
   * giving a result whose sign differs from the minuend) holds exactly when
   * the signed difference does not fit in 32 bits.
   */
  lemma {:induction false} SubOverflowRule(a: Word, b: Word)
    ensures (Sign(a) != Sign(b) && Sign(Wrap(a - b)) != Sign(a))
            <==> !InSignedRange(ToSigned(a) - ToSigned(b))
  {
    var r := Wrap(a - b);
    SignBitIsNegative(a);
    SignBitIsNegative(b);
    SignBitIsNegative(r);
    if a >= b {
      DivModUnique(a - b, WordModulus, 0, a - b);
    } else {
      DivModUnique(a - b, WordModulus, -1, a - b + WordModulus);
    }
  }

  /** Without the overflow flag, the word read as signed is the signed sum. */
  lemma AddSignedExact(a: Word, b: Word)
    requires !AddSpec(a, b).flags.v
    ensures ToSigned(AddSpec(a, b).value) == ToSigned(a) + ToSigned(b)
  {
    WrapToSigned(a);
    WrapToSigned(b);
    WrapAdd(ToSigned(a), ToSigned(b));
    ToSignedWrap(ToSigned(a) + ToSigned(b));
  }

  /** Without the overflow flag, the word read as signed is the signed difference. */
  lemma SubSignedExact(a: Word, b: Word)
    requires !SubSpec(a, b).flags.v
    ensures ToSigned(SubSpec(a, b).value) == ToSigned(a) - ToSigned(b)
  {
    WrapToSigned(a);
    WrapToSigned(b);
    WrapSub(ToSigned(a), ToSigned(b));
    ToSignedWrap(ToSigned(a) - ToSigned(b));
  }

  // ---------------------------------------------------------------------------
  // Truncation commutes with the ring operations
  // ---------------------------------------------------------------------------

  lemma WrapShift(x: int, k: int)
    ensures Wrap(x + k * WordModulus) == Wrap(x)
  {
    DivModUnique(x + k * WordModulus, WordModulus, x / WordModulus + k, x % WordModulus);
  }

  lemma WrapAdd(x: int, y: int)
    ensures Wrap(Wrap(x) + Wrap(y)) == Wrap(x + y)
  {
    var qx, qy := x / WordModulus, y / WordModulus;
    assert x + y == Wrap(x) + Wrap(y) + (qx + qy) * WordModulus;
    WrapShift(Wrap(x) + Wrap(y), qx + qy);
  }

  lemma WrapSub(x: int, y: int)
    ensures Wrap(Wrap(x) - Wrap(y)) == Wrap(x - y)
  {
    var qx, qy := x / WordModulus, y / WordModulus;
    assert x - y == Wrap(x) - Wrap(y) + (qx - qy) * WordModulus;
    WrapShift(Wrap(x) - Wrap(y), qx - qy);
  }

  lemma WrapMul(x: int, y: int)
    ensures Wrap(Wrap(x) * Wrap(y)) == Wrap(x * y)
  {
    var qx, qy := x / WordModulus, y / WordModulus;
    var rx, ry := Wrap(x), Wrap(y);
    assert x == rx + qx * WordModulus;
    assert y == ry + qy * WordModulus;
    assert x * y == rx * ry + (qx * ry + qy * rx + qx * qy * WordModulus) * WordModulus by {
      calc {
        x * y;
        (rx + qx * WordModulus) * (ry + qy * WordModulus);
        rx * ry + (qx * ry + qy * rx + qx * qy * WordModulus) * WordModulus;
      }
    }
    WrapShift(rx * ry, qx * ry + qy * rx + qx * qy * WordModulus);
  }

  // ---------------------------------------------------------------------------
  // The four operations as the source computes them
  // ---------------------------------------------------------------------------

  /**
   * alu_add: the ripple-carry sum with carry-in 0; Z and N from the result,
   * C from the carry out of bit 31, V by the equal-signs rule.
   */
  method Add(a: Word, b: Word) returns (r: AluResult)
    ensures r == AddSpec(a, b)
  {
    var result, carry := RippleAdd(a, b, 0);
    var signA, signB, signRes := Sign(a), Sign(b), Sign(result);
    r := AluResult(result, Flags(z := result == 0, n := signRes == 1,
                                 c := carry == 1,
                                 v := signA == signB && signRes != signA));
    SignBitIsNegative(result);
    AddOverflowRule(a, b);
  }

  /**
   * alu_sub: a + ~b + 1 through the same ripple-carry adder; C is then the
   * complement of the borrow and V follows the opposite-signs rule.
   */
  method Sub(a: Word, b: Word) returns (r: AluResult)
    ensures r == SubSpec(a, b)
  {
    var result, carry := RippleAdd(a, Not(b), 1);
    assert a + Not(b) + 1 == (a - b) + WordModulus;
    WrapShift(a - b, 1);
    var signA, signB, signRes := Sign(a), Sign(b), Sign(result);
    r := AluResult(result, Flags(z := result == 0, n := signRes == 1,
                                 c := carry == 1,
                                 v := signA != signB && signRes != signA));
    SignBitIsNegative(result);
    SubOverflowRule(a, b);
  }

  /**
   * alu_mul: the low 32 bits of the full product; Z and N from the result,
   * C and V always cleared.
   */
  function Mul(a: Word, b: Word): (r: AluResult)
    ensures r.value == Wrap(a * b)
    ensures r.flags.z <==> r.value == 0
    ensures r.flags.n <==> ToSigned(r.value) < 0
    ensures !r.flags.c && !r.flags.v
  {
    var result := Wrap(a * b);
    SignBitIsNegative(result);
    AluResult(result, Flags(z := result == 0, n := Sign(result) == 1, c := false, v := false))
  }

  /**
   * alu_div: unsigned floor division; the caller guarantees a non-zero
   * divisor. Z and N from the result, C and V always cleared.
   */
  function Div(a: Word, b: Word): (r: AluResult)
    requires b != 0
    ensures r.value * b <= a < (r.value + 1) * b
    ensures r.flags.z <==> a < b
    ensures r.flags.n <==> ToSigned(r.value) < 0
    ensures !r.flags.c && !r.flags.v
  {
    var result := a / b;
    SignBitIsNegative(result);
    FloorDiv(a, b);
    AluResult(result, Flags(z := result == 0, n := Sign(result) == 1, c := false, v := false))
  }

  /** Every operation sets Z exactly when its result is 0 and N to bit 31 of its result. */
  lemma ZeroNegativeFlags(a: Word, b: Word)
    ensures AddSpec(a, b).flags.z == (AddSpec(a, b).value == 0)
    ensures AddSpec(a, b).flags.n == (Sign(AddSpec(a, b).value) == 1)
    ensures SubSpec(a, b).flags.z == (SubSpec(a, b).value == 0)
    ensures SubSpec(a, b).flags.n == (Sign(SubSpec(a, b).value) == 1)
    ensures Mul(a, b).flags.z == (Mul(a, b).value == 0)
    ensures Mul(a, b).flags.n == (Sign(Mul(a, b).value) == 1)
    ensures b != 0 ==> Div(a, b).flags.z == (Div(a, b).value == 0)
    ensures b != 0 ==> Div(a, b).flags.n == (Sign(Div(a, b).value) == 1)
  {
    SignBitIsNegative(AddSpec(a, b).value);
    SignBitIsNegative(SubSpec(a, b).value);
    SignBitIsNegative(Mul(a, b).value);
    if b != 0 {
      SignBitIsNegative(Div(a, b).value);
    }
  }
}
