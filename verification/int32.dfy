/** The 32-bit integer operations of JavaScript (ECMA-262) that the hash uses.
    JavaScript numbers are doubles; the bitwise operators first convert their
    operands with ToInt32 and return a signed 32-bit result. */
module Int32 {

  const TWO_31: int := 0x8000_0000
  const TWO_32: int := 0x1_0000_0000

  predicate IsInt32(x: int) {
    -TWO_31 <= x < TWO_31
  }

  /** The residue of `x` modulo 2^32: the 32 bits that survive truncation. */
  function Mod32(x: int): (m: int)
    ensures 0 <= m < TWO_32
  {
    x % TWO_32
  }

  /** `a` and `b` are equal modulo 2^32. */
  predicate Congruent(a: int, b: int) {
    Mod32(a) == Mod32(b)
  }

  /** ToInt32 (section 7.1.6 of ECMA-262), restricted to integral inputs:
      reduce modulo 2^32 and reinterpret bit 31 as the sign. */
  function ToInt32(x: int): (r: int)
    ensures IsInt32(r)
    ensures Congruent(x, r)
  {
    var bits := Mod32(x);
    if bits >= TWO_31 then
      ModShift(bits - TWO_32, 1);
      bits - TWO_32
    else
      ModShift(bits, 0);
      bits
  }

  /** 2 to the power `n`. */
  function Pow2(n: nat): nat
  {
    if n == 0 then 1 else 2 * Pow2(n - 1)
  }

  /** `x << count` (section 13.9.1 of ECMA-262): the left operand is converted
      with ToInt32, the shift count is taken modulo 32, and the product is
      truncated back to a signed 32-bit value. */
  function ShiftLeft(x: int, count: nat): (r: int)
    ensures IsInt32(r)
    ensures Congruent(r, x * Pow2(count % 32))
  {
    var factor := Pow2(count % 32);
    CongruentScale(ToInt32(x), x, factor);
    ToInt32(ToInt32(x) * factor)
  }

  /** `x | 0`: ToInt32 of the left operand OR-ed with zero bits. */
  function OrZero(x: int): (r: int)
    ensures IsInt32(r)
    ensures Congruent(r, x)
    ensures IsInt32(x) ==> r == x
  {
    ToInt32Fixed(x);
    ToInt32(x)
  }

  /** `Math.abs` on a number that holds an integer: no 32-bit overflow,
      since the result is again a double. */
  function Abs(x: int): (r: nat)
    ensures r == x || r == -x
  {
    if x < 0 then -x else x
  }

  /** Adding a multiple of 2^32 does not change the residue. */
  lemma ModShift(x: int, k: int)
    ensures Mod32(x + k * TWO_32) == Mod32(x)
  {
    var q, m := x / TWO_32, x % TWO_32;
    assert x + k * TWO_32 == (q + k) * TWO_32 + m;
  }

  /** Multiplying both sides by the same factor keeps them congruent. */
  lemma CongruentScale(a: int, b: int, k: int)
    requires Congruent(a, b)
    ensures Congruent(a * k, b * k)
  {
    var p, q, m := a / TWO_32, b / TWO_32, a % TWO_32;
    assert a == p * TWO_32 + m && b == q * TWO_32 + m;
    assert a * k == m * k + (p * k) * TWO_32;
    assert b * k == m * k + (q * k) * TWO_32;
    ModShift(m * k, p * k);
    ModShift(m * k, q * k);
  }

  /** Adding the same amount to both sides keeps them congruent. */
  lemma CongruentShift(a: int, b: int, d: int)
    requires Congruent(a, b)
    ensures Congruent(a + d, b + d)
  {
    var p, q, m := a / TWO_32, b / TWO_32, a % TWO_32;
    assert a + d == (m + d) + p * TWO_32 && b + d == (m + d) + q * TWO_32;
    ModShift(m + d, p);
    ModShift(m + d, q);
  }

  /** ToInt32 cannot tell congruent inputs apart: it depends only on the
      value modulo 2^32. */
  lemma ToInt32Congruent(x: int, y: int)
    requires Congruent(x, y)
    ensures ToInt32(x) == ToInt32(y)
  {
  }

  /** ToInt32 leaves a value already in signed 32-bit range unchanged. */
  lemma ToInt32Fixed(x: int)
    ensures IsInt32(x) ==> ToInt32(x) == x
  {
    if IsInt32(x) {
      if x < 0 {
        ModShift(x, 1);
        assert Mod32(x + TWO_32) == x + TWO_32;
      }
    }
  }
}
