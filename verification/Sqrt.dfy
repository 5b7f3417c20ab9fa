/** Integer square root by Newton's iteration (stellar-lend/contracts/amm/src/math.rs). */
module Sqrt {
  import opened Numeric

  /** The largest `r` whose square does not exceed `y`, found two binary digits at a time. */
  function SqrtOf(y: nat): (r: nat)
    ensures r * r <= y < (r + 1) * (r + 1)
  {
    if y == 0 then 0
    else
      var s := 2 * SqrtOf(y / 4);
      SquareOfDouble(y, SqrtOf(y / 4));
      if (s + 1) * (s + 1) <= y then s + 1 else s
  }

  lemma SquareOfDouble(y: nat, h: nat)
    requires h * h <= y / 4 < (h + 1) * (h + 1)
    ensures (2 * h) * (2 * h) <= y < (2 * h + 2) * (2 * h + 2)
  {
    assert (2 * h) * (2 * h) == 4 * (h * h);
    assert (2 * h + 2) * (2 * h + 2) == 4 * ((h + 1) * (h + 1));
  }

  lemma SqrtUnique(y: nat, r: nat, s: nat)
    requires r * r <= y < (r + 1) * (r + 1)
    requires s * s <= y < (s + 1) * (s + 1)
    ensures r == s
  {
    if r < s {
      MulMono(r + 1, s, r + 1);
      MulMono(r + 1, s, s);
    } else if s < r {
      MulMono(s + 1, r, s + 1);
      MulMono(s + 1, r, r);
    }
  }

  lemma MeansInequality(a: int, b: int)
    ensures 4 * (a * b) <= (a + b) * (a + b)
  {
    assert (a + b) * (a + b) - 4 * (a * b) == (a - b) * (a - b);
  }

  lemma SquareMono(a: nat, b: nat)
    requires a <= b
    ensures a * a <= b * b
  {
    MulMono(a, b, a);
    MulMono(a, b, b);
  }

  /** One Newton step from any positive guess lands at or above the root. */
  lemma NewtonStepStaysAbove(y: nat, x: nat)
    requires x > 0
    ensures var next := (y / x + x) / 2;
            y < (next + 1) * (next + 1)
  {
    var q := y / x;
    FloorDiv(y, x);
    assert (q + 1) * x == q * x + x;
    ProductBelowSquare(q + 1, x, (q + x) / 2 + 1);
  }

  lemma ProductBelowSquare(a: nat, b: nat, t: nat)
    requires a + b <= 2 * t
    ensures a * b <= t * t
  {
    MeansInequality(a, b);
    SquareMono(a + b, 2 * t);
    assert (2 * t) * (2 * t) == 4 * (t * t);
  }

  /** A guess the step does not lower is at or below the root. */
  lemma NewtonStopsBelow(y: nat, z: nat)
    requires z > 0 && z <= (y / z + z) / 2
    ensures z * z <= y
  {
    FloorDiv(y, z);
    MulMono(z, y / z, z);
  }

  ghost predicate AtOrAboveRoot(y: nat, x: nat) {
    y < (x + 1) * (x + 1)
  }

  /** A step keeps the guess in range, at or above the root, and its sum below `i128::MAX`. */
  lemma NewtonStepFits(y: i128, x: nat)
    requires y > 3 && 2 <= x <= y / 2 + 1
    ensures 1 <= y / x && y / x + x <= I128_MAX
    ensures 2 <= (y / x + x) / 2 <= y / 2 + 1
    ensures AtOrAboveRoot(y, (y / x + x) / 2)
  {
    MulMono(2, x, y / 2 + 1);
    FloorDivAtMost(y, x, y / 2);
    FloorDivAtLeast(y, x, 1);
    NewtonStepStaysAbove(y, x);
    if x == 2 {
      FloorDivAtLeast(y, 2, 2);
    }
  }

  lemma RootFound(y: nat, z: nat)
    requires z > 0 && z <= (y / z + z) / 2 && AtOrAboveRoot(y, z)
    ensures z == SqrtOf(y)
  {
    NewtonStopsBelow(y, z);
    SqrtUnique(y, z, SqrtOf(y));
  }

  lemma FirstGuessIsAbove(y: nat)
    requires y > 3
    ensures AtOrAboveRoot(y, y) && AtOrAboveRoot(y, y / 2 + 1)
  {
    MulMono(2, y / 2 + 2, y / 2 + 2);
    MulMono(1, y + 1, y + 1);
  }

  /** `sqrt`. No value stands for the panic on a negative argument; the subset type of every local
      is the proof that no intermediate value leaves `i128`. */
  method NewtonSqrt(y: i128) returns (r: Option<i128>)
    ensures r == if y < 0 then None else Some(SqrtOf(y))
  {
    hide AtOrAboveRoot;
    if y < 0 {
      return None;
    }
    if y > 3 {
      var z: i128 := y;
      var x: i128 := y / 2 + 1;
      FirstGuessIsAbove(y);
      while x < z
        invariant 2 <= x <= y / 2 + 1
        invariant 2 <= z
        invariant AtOrAboveRoot(y, x) && AtOrAboveRoot(y, z)
        invariant x < z || x == (y / z + z) / 2
        decreases z
      {
        z := x;
        NewtonStepFits(y, x);
        var sum: i128 := y / x + x;
        x := sum / 2;
      }
      RootFound(y, z);
      return Some(z);
    }
    SqrtUnique(y, if y == 0 then 0 else 1, SqrtOf(y));
    return Some(if y != 0 then 1 else 0);
  }
}
