/** Fixed-width integers of the contracts, their checked operators, and the
    failure-compatible result types the rest of the model shares. */
module Numeric {

  const I128_MAX: int := 0x7fff_ffff_ffff_ffff_ffff_ffff_ffff_ffff
  const I128_MIN: int := -0x8000_0000_0000_0000_0000_0000_0000_0000
  const U128_MOD: int := 0x1_0000_0000_0000_0000_0000_0000_0000_0000
  const U64_MAX: int := 0xffff_ffff_ffff_ffff

  type i128 = x: int | I128_MIN <= x <= I128_MAX
  type u128 = x: int | 0 <= x < U128_MOD
  type u64 = x: int | 0 <= x <= U64_MAX

  datatype Option<+T> = None | Some(value: T) {
    function OkOr<E>(error: E): Result<T, E> {
      match this
      case Some(v) => Ok(v)
      case None => Err(error)
    }
  }

  datatype Result<+T, +E> = Ok(value: T) | Err(error: E) {
    predicate IsFailure() {
      Err?
    }

    function PropagateFailure<U>(): Result<U, E>
      requires Err?
    {
      Err(error)
    }

    function Extract(): T
      requires Ok?
    {
      value
    }
  }

  predicate InI128(x: int) {
    I128_MIN <= x <= I128_MAX
  }

  /** `checked_add`, `checked_sub` and `checked_mul` of `i128`, applied to the exact result. */
  function Checked(x: int): Option<i128> {
    if InI128(x) then Some(x) else None
  }

  /** Nearest `i128` to the exact result: `saturating_add`, `saturating_sub`, `saturating_mul`. */
  function Saturate(x: int): i128 {
    if x > I128_MAX then I128_MAX else if x < I128_MIN then I128_MIN else x
  }

  /** `saturating_sub` of the unsigned types. */
  function SatSub(a: nat, b: nat): nat {
    if a >= b then a - b else 0
  }

  /** Quotient of the machine `/`, which truncates toward zero. */
  function TruncDiv(a: int, b: int): int
    requires b != 0
  {
    if a >= 0 then a / b else -(-a / b)
  }

  /** `/` and `checked_div` of `i128`: no value for a zero divisor or an overflowing quotient. */
  function CheckedDiv(a: i128, b: i128): Option<i128> {
    if b == 0 then None else Checked(TruncDiv(a, b))
  }

  function Abs(x: int): nat {
    if x < 0 then -x else x
  }

  function Min(a: int, b: int): int {
    if a <= b then a else b
  }

  function Max(a: int, b: int): int {
    if a >= b then a else b
  }

  /** A floor quotient is the largest integer whose multiple does not exceed the dividend. */
  lemma FloorDiv(a: int, b: int)
    requires b > 0
    ensures a / b * b <= a < a / b * b + b
  {
  }

  lemma FloorDivAtLeast(a: int, b: int, q: int)
    requires b > 0 && q * b <= a
    ensures q <= a / b
  {
    FloorDiv(a, b);
    MulCancel(q, a / b + 1, b);
  }

  lemma FloorDivAtMost(a: int, b: int, q: int)
    requires b > 0 && a < (q + 1) * b
    ensures a / b <= q
  {
    FloorDiv(a, b);
    MulCancel(a / b, q + 1, b);
  }

  lemma MulCancelLe(a: int, b: int, c: int)
    requires a * c <= b * c && 0 < c
    ensures a <= b
  {
    if b + 1 <= a {
      MulMono(b + 1, a, c);
    }
  }

  /** Quotient and remainder are determined by the division equation. */
  lemma DivModUnique(a: int, m: int, q: int, r: int)
    requires m > 0 && a == q * m + r && 0 <= r < m
    ensures a / m == q && a % m == r
  {
    assert (q + 1) * m == q * m + m;
    FloorDivAtLeast(a, m, q);
    FloorDivAtMost(a, m, q);
  }

  lemma MulCancel(a: int, b: int, c: int)
    requires a * c < b * c && 0 <= c
    ensures a < b
  {
    if b <= a {
      MulMono(b, a, c);
    }
  }

  lemma MulMono(a: int, b: int, c: int)
    requires a <= b && 0 <= c
    ensures a * c <= b * c
  {
  }
}
