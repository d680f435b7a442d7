/** Rust's integer types, their ranges, and two's-complement wrapping. */
module Numeric {

  /**
   * `Lit` is an integer literal whose type is still to be inferred; `SLit` is one under
   * a unary minus, which can only become a signed type.
   */
  datatype Ty = I32 | I64 | U64 | I128 | U128 | Usize | Bool | Bytes | Lit | SLit
  {
    predicate IsInteger() { !Bool? && !Bytes? }

    predicate IsLiteral() { Lit? || SLit? }

    predicate IsConcreteInteger() { IsInteger() && !IsLiteral() }

    predicate IsSigned() { I32? || I64? || I128? || Lit? || SLit? }
  }

  const TWO_31 := 0x8000_0000
  const TWO_63 := 0x8000_0000_0000_0000
  const TWO_64 := 0x1_0000_0000_0000_0000
  const TWO_127 := 0x8000_0000_0000_0000_0000_0000_0000_0000
  const TWO_128 := 0x1_0000_0000_0000_0000_0000_0000_0000_0000

  function Min(t: Ty): int {
    match t
    case I32 => -TWO_31
    case I64 => -TWO_63
    case I128 => -TWO_127
    case SLit => 1 - TWO_31
    case _ => 0
  }

  function Max(t: Ty): int {
    match t
    case I32 => TWO_31 - 1
    case I64 => TWO_63 - 1
    case U64 => TWO_64 - 1
    case Usize => TWO_64 - 1
    case I128 => TWO_127 - 1
    case U128 => TWO_128 - 1
    case Lit => TWO_31 - 1
    case SLit => TWO_31 - 1
    case _ => 0
  }

  predicate InRange(t: Ty, i: int) {
    Min(t) <= i <= Max(t)
  }

  function Modulus(t: Ty): (m: int)
    ensures m > 0
  {
    Max(t) - Min(t) + 1
  }

  /** The representative of `i` modulo the size of `t` that lies in `t`'s range. */
  function Wrap(t: Ty, i: int): (r: int)
    ensures InRange(t, r)
  {
    (i - Min(t)) % Modulus(t) + Min(t)
  }

  /** Division and remainder that truncate toward zero, as Rust's `/` and `%` do. */
  function TruncDiv(a: int, b: int): int
    requires b != 0
  {
    var q := Abs(a) / Abs(b);
    if (a < 0) == (b < 0) then q else -q
  }

  function TruncMod(a: int, b: int): int
    requires b != 0
  {
    a - b * TruncDiv(a, b)
  }

  function Abs(i: int): nat
  {
    if i < 0 then -i else i
  }

  function Pow2(n: nat): int {
    if n == 0 then 1 else 2 * Pow2(n - 1)
  }

  /** The two's-complement range of a number of bits. */
  predicate InTwosComplement(signed: bool, bits: nat, i: int)
    requires bits > 0
  {
    if signed then -Pow2(bits - 1) <= i < Pow2(bits - 1) else 0 <= i < Pow2(bits)
  }

  lemma PowersOfTwo()
    ensures Pow2(7) == 0x80 && Pow2(8) == 0x100 && Pow2(15) == 0x8000 && Pow2(16) == 0x1_0000
    ensures Pow2(31) == TWO_31 && Pow2(32) == 0x1_0000_0000
    ensures Pow2(63) == TWO_63 && Pow2(64) == TWO_64 && Pow2(127) == TWO_127 && Pow2(128) == TWO_128
  {
    PowSum(4, 3);
    PowSum(4, 4);
    PowSum(8, 7);
    PowSum(8, 8);
    PowSum(16, 15);
    PowSum(16, 16);
    PowSum(32, 31);
    PowSum(32, 32);
    PowSum(64, 63);
    PowSum(64, 64);
    assert Pow2(3) == 8 && Pow2(4) == 16;
  }

  lemma {:induction false} PowSum(m: nat, n: nat)
    ensures Pow2(m + n) == Pow2(m) * Pow2(n)
  {
    if m > 0 {
      PowSum(m - 1, n);
      assert Pow2(m + n) == 2 * Pow2(m - 1 + n);
      assert 2 * (Pow2(m - 1) * Pow2(n)) == (2 * Pow2(m - 1)) * Pow2(n);
    }
  }

  /** The sized types hold exactly their two's-complement range. */
  lemma RangesAreTwosComplement(i: int)
    ensures InRange(I32, i) <==> InTwosComplement(true, 32, i)
    ensures InRange(I64, i) <==> InTwosComplement(true, 64, i)
    ensures InRange(I128, i) <==> InTwosComplement(true, 128, i)
    ensures InRange(U64, i) <==> InTwosComplement(false, 64, i)
    ensures InRange(U128, i) <==> InTwosComplement(false, 128, i)
    ensures InRange(Usize, i) <==> InTwosComplement(false, 64, i)
    ensures InRange(Lit, i) <==> InTwosComplement(true, 32, i) && i >= 0
  {
    hide Pow2;
    PowersOfTwo();
  }

  // ----- Modular facts -----

  lemma ModShift(x: int, k: int, m: int)
    requires m > 0
    ensures (x + m * k) % m == x % m
  {
    var q, r := x / m, x % m;
    assert x == m * q + r;
    assert x + m * k == m * (q + k) + r by { assert m * (q + k) == m * q + m * k; }
    ModUnique(x + m * k, q + k, r, m);
  }

  lemma ModUnique(x: int, q: int, r: int, m: int)
    requires 0 <= r < m && x == m * q + r
    ensures x % m == r
  {
    var q', r' := x / m, x % m;
    assert m * q' + r' == m * q + r;
    assert m * (q' - q) == r - r' by { assert m * (q' - q) == m * q' - m * q; }
    if q' - q >= 1 { MulAtLeast(m, q' - q); }
    if q' - q <= -1 {
      assert m * (q - q') == -(m * (q' - q));
      MulAtLeast(m, q - q');
    }
  }

  lemma MulAtLeast(m: int, k: int)
    requires m > 0 && k >= 1
    ensures m * k >= m
  {
    assert m * k == m + m * (k - 1);
    assert m * (k - 1) >= 0;
  }

  /** `Wrap` differs from the identity by a multiple of the modulus. */
  lemma WrapOffset(t: Ty, i: int) returns (k: int)
    ensures Wrap(t, i) == i + Modulus(t) * k
  {
    var m := Modulus(t);
    var x := i - Min(t);
    assert x == m * (x / m) + x % m;
    k := -(x / m);
    assert m * k == -(m * (x / m));
  }

  lemma WrapShift(t: Ty, i: int, k: int)
    ensures Wrap(t, i + Modulus(t) * k) == Wrap(t, i)
  {
    ModShift(i - Min(t), k, Modulus(t));
    assert i + Modulus(t) * k - Min(t) == i - Min(t) + Modulus(t) * k;
  }

  lemma WrapInRange(t: Ty, i: int)
    requires InRange(t, i)
    ensures Wrap(t, i) == i
  {
    ModUnique(i - Min(t), 0, i - Min(t), Modulus(t));
  }

  /** Wrapping is a homomorphism for `+`, `-` and `*`. */
  lemma WrapAdd(t: Ty, a: int, b: int)
    ensures Wrap(t, Wrap(t, a) + Wrap(t, b)) == Wrap(t, a + b)
  {
    var j := WrapOffset(t, a);
    var k := WrapOffset(t, b);
    var m := Modulus(t);
    assert Wrap(t, a) + Wrap(t, b) == a + b + m * (j + k) by { assert m * (j + k) == m * j + m * k; }
    WrapShift(t, a + b, j + k);
  }

  lemma WrapSub(t: Ty, a: int, b: int)
    ensures Wrap(t, Wrap(t, a) - Wrap(t, b)) == Wrap(t, a - b)
  {
    var j := WrapOffset(t, a);
    var k := WrapOffset(t, b);
    var m := Modulus(t);
    assert Wrap(t, a) - Wrap(t, b) == a - b + m * (j - k) by { assert m * (j - k) == m * j - m * k; }
    WrapShift(t, a - b, j - k);
  }

  lemma WrapMul(t: Ty, a: int, b: int)
    ensures Wrap(t, Wrap(t, a) * Wrap(t, b)) == Wrap(t, a * b)
  {
    var j := WrapOffset(t, a);
    var k := WrapOffset(t, b);
    var m := Modulus(t);
    var c := a * k + j * b + j * (m * k);
    MulExpand(a, b, m, j, k);
    WrapShift(t, a * b, c);
  }

  lemma MulExpand(a: int, b: int, m: int, j: int, k: int)
    ensures (a + m * j) * (b + m * k) == a * b + m * (a * k + j * b + j * (m * k))
  {
    calc {
      (a + m * j) * (b + m * k);
      a * (b + m * k) + (m * j) * (b + m * k);
      a * b + a * (m * k) + ((m * j) * b + (m * j) * (m * k));
      { assert a * (m * k) == m * (a * k); assert (m * j) * b == m * (j * b); assert (m * j) * (m * k) == m * (j * (m * k)); }
      a * b + m * (a * k) + m * (j * b) + m * (j * (m * k));
      a * b + m * (a * k + j * b + j * (m * k));
    }
  }

  // ----- Truncating division -----

  lemma TruncDivSize(a: int, b: int)
    requires b != 0
    ensures Abs(TruncDiv(a, b)) == Abs(a) / Abs(b) <= Abs(a)
  {
    QuotientSize(Abs(a), Abs(b));
  }

  lemma QuotientSize(a: nat, b: int)
    requires b > 0
    ensures 0 <= a / b <= a && 0 <= a % b <= a
  {
    QuotientBound(a, b, a / b, a % b);
  }

  lemma QuotientBound(a: nat, b: int, q: int, r: int)
    requires b > 0 && a == b * q + r && 0 <= r < b
    ensures 0 <= q <= a && r <= a
  {
    if q < 0 {
      MulAtLeast(b, -q);
    } else {
      assert b * q == q + (b - 1) * q;
      assert (b - 1) * q >= 0;
    }
  }

  /** The remainder has the dividend's sign, is no larger than the dividend and smaller than the divisor. */
  lemma TruncModSize(a: int, b: int)
    requires b != 0
    ensures Abs(TruncMod(a, b)) == Abs(a) % Abs(b) <= Abs(a)
    ensures Abs(TruncMod(a, b)) < Abs(b)
    ensures TruncMod(a, b) == 0 || (TruncMod(a, b) < 0) == (a < 0)
  {
    var p: int, q: int := Abs(a), Abs(b);
    QuotientSize(p, q);
    var k: int := p / q;
    assert p == q * k + p % q;
    assert TruncDiv(a, b) == (if (a < 0) == (b < 0) then k else -k);
    SignedProduct(b, k);
  }

  lemma SignedProduct(b: int, k: int)
    ensures b * -k == -(b * k)
    ensures Abs(b) * k == (if b < 0 then -(b * k) else b * k)
  {
  }
}
