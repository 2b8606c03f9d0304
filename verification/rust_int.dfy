/** Rust's integer semantics written out over Dafny's unbounded `int`.

    Rust's `/` and `%` truncate toward zero, while Dafny's are Euclidean; a
    cast of a negative signed value to `usize` reinterprets its bits. */
module RustInt {

  const U64_MODULUS: int := 0x1_0000_0000_0000_0000
  const I64_MIN: int := -0x8000_0000_0000_0000
  const I64_MAX: int := 0x7FFF_FFFF_FFFF_FFFF
  const I32_MIN: int := -0x8000_0000
  const I32_MAX: int := 0x7FFF_FFFF

  predicate IsI64(v: int) {
    I64_MIN <= v <= I64_MAX
  }

  predicate IsI32(v: int) {
    I32_MIN <= v <= I32_MAX
  }

  function Abs(v: int): nat {
    if v < 0 then -v else v
  }

  /** Rust's `a / b` on signed integers: the quotient rounded toward zero. */
  function TDiv(a: int, b: int): int
    requires b != 0
  {
    if b > 0 then
      (if a >= 0 then a / b else -((-a) / b))
    else
      (if a >= 0 then -(a / -b) else (-a) / -b)
  }

  /** Rust's `a % b`: the remainder that goes with `TDiv`, carrying the sign of `a`. */
  function TMod(a: int, b: int): (r: int)
    requires b != 0
    ensures a == b * TDiv(a, b) + r
    ensures Abs(r) < Abs(b)
    ensures a >= 0 ==> r >= 0
    ensures a <= 0 ==> r <= 0
  {
    a - b * TDiv(a, b)
  }

  /** On non-negative operands the truncating and the Euclidean operators agree. */
  lemma NonNegativeDivMod(a: int, b: int)
    requires a >= 0 && b > 0
    ensures TDiv(a, b) == a / b && TMod(a, b) == a % b
  {
  }

  /** `v as usize` for a 64-bit signed `v`: the two's-complement bit pattern
      read as an unsigned number. */
  function AsUsize(v: int): (r: nat)
    ensures r < U64_MODULUS
    ensures 0 <= v < U64_MODULUS ==> r == v
    ensures I64_MIN <= v < 0 ==> r == U64_MODULUS + v
  {
    v % 0x1_0000_0000_0000_0000
  }

  function Pow(base: int, e: nat): int
  {
    if e == 0 then 1 else base * Pow(base, e - 1)
  }

  lemma {:induction false} PowPositive(base: int, e: nat)
    requires base > 0
    ensures Pow(base, e) > 0
  {
    if e > 0 {
      PowPositive(base, e - 1);
    }
  }

  lemma {:induction false} PowAdd(base: int, a: nat, b: nat)
    ensures Pow(base, a + b) == Pow(base, a) * Pow(base, b)
  {
    if a > 0 {
      PowAdd(base, a - 1, b);
      calc {
        Pow(base, a + b);
        base * Pow(base, a - 1 + b);
        base * (Pow(base, a - 1) * Pow(base, b));
        { assert base * (Pow(base, a - 1) * Pow(base, b)) == (base * Pow(base, a - 1)) * Pow(base, b); }
        Pow(base, a) * Pow(base, b);
      }
    }
  }
}
