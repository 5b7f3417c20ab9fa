/** The constant-product pool: swaps both ways, liquidity, and the two-step flash swap
    (stellar-lend/contracts/amm/src/lib.rs). */
module AmmPool {
  import opened Numeric
  import opened Sequences

  const BPS: int := 10_000
  const IMPACT_GUARD_DISABLED: nat := 0xffff_ffff

  /** `Panicked` is an abort outside the error enumeration: an `expect`, an overflowing subtraction,
      or a quotient that does not exist. */
  datatype AmmError =
    | EmptyPool
    | NonPositiveAmount
    | InsufficientReserves
    | Overflow
    | InvariantViolation
    | ReentrantFlashSwap
    | PriceImpactExceeded
    | Panicked

  /** `guardsAToB` covers two readings of `swap_a_for_b`, which calls the flash-swap guard and drops its
      result: the guard aborts, as its comment says, or it does nothing. */
  datatype PoolState = PoolState(
    reserveA: i128,
    reserveB: i128,
    feeA: i128,
    feeB: i128,
    flashActive: bool,
    kBefore: i128,
    maxImpactBps: nat,
    guardsAToB: bool)

  // ---------------------------------------------------------------------------
  // Pure helpers
  // ---------------------------------------------------------------------------

  function AssertKMonotonic(beforeA: i128, beforeB: i128, afterA: i128, afterB: i128, expectIncrease: bool)
    : Result<(), AmmError>
  {
    var kBefore :- Checked(beforeA * beforeB).OkOr(Overflow);
    var kAfter :- Checked(afterA * afterB).OkOr(Overflow);
    if (if expectIncrease then kAfter < kBefore else kAfter > kBefore) then Err(InvariantViolation)
    else Ok(())
  }

  function ComputeFee(amountIn: i128, feeBps: i128): Result<i128, AmmError> {
    var product :- Checked(amountIn * feeBps).OkOr(Overflow);
    CheckedDiv(product, BPS).OkOr(Panicked)
  }

  /** Output of a swap from the reserve `rIn` to the reserve `rOut`. */
  function AmountOut(amountIn: i128, feeBps: i128, rIn: i128, rOut: i128): Result<i128, AmmError> {
    var feeAdj :- Checked(BPS - feeBps).OkOr(Overflow);
    var withFee :- Checked(amountIn * feeAdj).OkOr(Overflow);
    var numerator :- Checked(withFee * rOut).OkOr(Overflow);
    var denomPart :- Checked(rIn * BPS).OkOr(Overflow);
    var denominator :- Checked(denomPart + withFee).OkOr(Overflow);
    CheckedDiv(numerator, denominator).OkOr(Panicked)
  }

  /** The guard on an A to B swap: relative fall of the spot price, in basis points. */
  function CheckImpact(ra: i128, rb: i128, newRa: i128, newRb: i128, maxImpactBps: nat): Result<(), AmmError> {
    if maxImpactBps == IMPACT_GUARD_DISABLED then Ok(())
    else
      var ratioNum :- Checked(newRb * ra).OkOr(Panicked);
      var ratioDen :- Checked(rb * newRa).OkOr(Panicked);
      var drop :- Checked(ratioDen - ratioNum).OkOr(Panicked);
      var scaled :- Checked(drop * BPS).OkOr(Panicked);
      var impact :- CheckedDiv(scaled, ratioDen).OkOr(Panicked);
      if impact > maxImpactBps then Err(PriceImpactExceeded) else Ok(())
  }

  // ---------------------------------------------------------------------------
  // Specification of the operations
  // ---------------------------------------------------------------------------

  function SwapAForB(p: PoolState, amountIn: i128, feeBps: i128): Result<(PoolState, i128), AmmError> {
    if p.guardsAToB && p.flashActive then Err(ReentrantFlashSwap)
    else if amountIn <= 0 then Err(NonPositiveAmount)
    else if p.reserveA <= 0 || p.reserveB <= 0 then Err(EmptyPool)
    else
      var fee :- ComputeFee(amountIn, feeBps);
      var out :- AmountOut(amountIn, feeBps, p.reserveA, p.reserveB);
      var newRa :- Checked(p.reserveA + amountIn).OkOr(Overflow);
      var newRb :- Checked(p.reserveB - out).OkOr(Overflow);
      var _ :- AssertKMonotonic(p.reserveA, p.reserveB, newRa, newRb, true);
      var _ :- CheckImpact(p.reserveA, p.reserveB, newRa, newRb, p.maxImpactBps);
      Ok((p.(reserveA := newRa, reserveB := newRb, feeA := Saturate(p.feeA + fee)), out))
  }

  /** No guard against a flash swap in flight, and none on the price impact. */
  function SwapBForA(p: PoolState, amountIn: i128, feeBps: i128): Result<(PoolState, i128), AmmError> {
    if amountIn <= 0 then Err(NonPositiveAmount)
    else if p.reserveA <= 0 || p.reserveB <= 0 then Err(EmptyPool)
    else
      var fee :- ComputeFee(amountIn, feeBps);
      var out :- AmountOut(amountIn, feeBps, p.reserveB, p.reserveA);
      var newRb :- Checked(p.reserveB + amountIn).OkOr(Overflow);
      var newRa :- Checked(p.reserveA - out).OkOr(Overflow);
      var _ :- AssertKMonotonic(p.reserveA, p.reserveB, newRa, newRb, true);
      Ok((p.(reserveA := newRa, reserveB := newRb, feeB := Saturate(p.feeB + fee)), out))
  }

  function AddLiquidity(p: PoolState, addA: i128, addB: i128): Result<PoolState, AmmError> {
    if p.flashActive then Err(ReentrantFlashSwap)
    else
      var newRa :- Checked(p.reserveA + addA).OkOr(Overflow);
      var newRb :- Checked(p.reserveB + addB).OkOr(Overflow);
      var _ :- AssertKMonotonic(p.reserveA, p.reserveB, newRa, newRb, true);
      Ok(p.(reserveA := newRa, reserveB := newRb))
  }

  function FlashSwapAForB(p: PoolState, amountOut: i128, feeBps: i128): Result<PoolState, AmmError> {
    if p.flashActive then Err(ReentrantFlashSwap)
    else if amountOut <= 0 then Err(NonPositiveAmount)
    else if feeBps < 0 || feeBps > 9_999 then Err(InvariantViolation)
    else if p.reserveA <= 0 || p.reserveB <= 0 then Err(EmptyPool)
    else if amountOut >= p.reserveB then Err(InsufficientReserves)
    else
      var k :- Checked(p.reserveA * p.reserveB).OkOr(Overflow);
      Ok(p.(kBefore := k, reserveB := p.reserveB - amountOut, flashActive := true))
  }

  function RepayFlashSwap(p: PoolState, amountIn: i128): Result<PoolState, AmmError> {
    if amountIn <= 0 then Err(NonPositiveAmount)
    else if !p.flashActive then Err(InvariantViolation)
    else
      var newRa :- Checked(p.reserveA + amountIn).OkOr(Overflow);
      var kAfter :- Checked(newRa * p.reserveB).OkOr(Overflow);
      if kAfter < p.kBefore then Err(InvariantViolation)
      else Ok(p.(reserveA := newRa, flashActive := false))
  }

  // ---------------------------------------------------------------------------
  // The stored pool
  // ---------------------------------------------------------------------------

  class Pool {
    var reserveA: i128
    var reserveB: i128
    var feeA: i128
    var feeB: i128
    var flashActive: bool
    var kBefore: i128
    var maxImpactBps: nat
    const guardsAToB: bool

    function Contents(): PoolState
      reads this
    {
      PoolState(reserveA, reserveB, feeA, feeB, flashActive, kBefore, maxImpactBps, guardsAToB)
    }

    constructor (a: i128, b: i128, guards: bool)
      ensures Contents() == PoolState(a, b, 0, 0, false, 0, IMPACT_GUARD_DISABLED, guards)
    {
      guardsAToB := guards;
      reserveA, reserveB, feeA, feeB := a, b, 0, 0;
      flashActive, kBefore, maxImpactBps := false, 0, IMPACT_GUARD_DISABLED;
    }

    method SwapAToB(amountIn: i128, feeBps: i128) returns (r: Result<i128, AmmError>)
      modifies this
      ensures match SwapAForB(old(Contents()), amountIn, feeBps)
              case Ok((p, out)) => r == Ok(out) && Contents() == p
              case Err(e) => r == Err(e) && Contents() == old(Contents())
    {
      if guardsAToB && flashActive { return Err(ReentrantFlashSwap); }
      if amountIn <= 0 { return Err(NonPositiveAmount); }
      if reserveA <= 0 || reserveB <= 0 { return Err(EmptyPool); }
      var fee :- ComputeFee(amountIn, feeBps);
      var out :- AmountOut(amountIn, feeBps, reserveA, reserveB);
      var newRa :- Checked(reserveA + amountIn).OkOr(Overflow);
      var newRb :- Checked(reserveB - out).OkOr(Overflow);
      var _ :- AssertKMonotonic(reserveA, reserveB, newRa, newRb, true);
      var newFeeA := Saturate(feeA + fee);
      var _ :- CheckImpact(reserveA, reserveB, newRa, newRb, maxImpactBps);
      reserveA := newRa;
      reserveB := newRb;
      feeA := newFeeA;
      return Ok(out);
    }

    method SwapBToA(amountIn: i128, feeBps: i128) returns (r: Result<i128, AmmError>)
      modifies this
      ensures match SwapBForA(old(Contents()), amountIn, feeBps)
              case Ok((p, out)) => r == Ok(out) && Contents() == p
              case Err(e) => r == Err(e) && Contents() == old(Contents())
    {
      if amountIn <= 0 { return Err(NonPositiveAmount); }
      if reserveA <= 0 || reserveB <= 0 { return Err(EmptyPool); }
      var fee :- ComputeFee(amountIn, feeBps);
      var out :- AmountOut(amountIn, feeBps, reserveB, reserveA);
      var newRb :- Checked(reserveB + amountIn).OkOr(Overflow);
      var newRa :- Checked(reserveA - out).OkOr(Overflow);
      var _ :- AssertKMonotonic(reserveA, reserveB, newRa, newRb, true);
      var newFeeB := Saturate(feeB + fee);
      reserveA := newRa;
      reserveB := newRb;
      feeB := newFeeB;
      return Ok(out);
    }

    method Add(addA: i128, addB: i128) returns (r: Result<(), AmmError>)
      modifies this
      ensures match AddLiquidity(old(Contents()), addA, addB)
              case Ok(p) => r == Ok(()) && Contents() == p
              case Err(e) => r == Err(e) && Contents() == old(Contents())
    {
      if flashActive { return Err(ReentrantFlashSwap); }
      var newRa :- Checked(reserveA + addA).OkOr(Overflow);
      var newRb :- Checked(reserveB + addB).OkOr(Overflow);
      var _ :- AssertKMonotonic(reserveA, reserveB, newRa, newRb, true);
      reserveA := newRa;
      reserveB := newRb;
      return Ok(());
    }

    method FlashSwap(amountOut: i128, feeBps: i128) returns (r: Result<i128, AmmError>)
      modifies this
      ensures match FlashSwapAForB(old(Contents()), amountOut, feeBps)
              case Ok(p) => r == Ok(amountOut) && Contents() == p
              case Err(e) => r == Err(e) && Contents() == old(Contents())
    {
      if flashActive { return Err(ReentrantFlashSwap); }
      if amountOut <= 0 { return Err(NonPositiveAmount); }
      if feeBps < 0 || feeBps > 9_999 { return Err(InvariantViolation); }
      if reserveA <= 0 || reserveB <= 0 { return Err(EmptyPool); }
      if amountOut >= reserveB { return Err(InsufficientReserves); }
      var k :- Checked(reserveA * reserveB).OkOr(Overflow);
      kBefore := k;
      reserveB := reserveB - amountOut;
      flashActive := true;
      return Ok(amountOut);
    }

    method Repay(amountIn: i128) returns (r: Result<(), AmmError>)
      modifies this
      ensures match RepayFlashSwap(old(Contents()), amountIn)
              case Ok(p) => r == Ok(()) && Contents() == p
              case Err(e) => r == Err(e) && Contents() == old(Contents())
    {
      if amountIn <= 0 { return Err(NonPositiveAmount); }
      if !flashActive { return Err(InvariantViolation); }
      var newRa :- Checked(reserveA + amountIn).OkOr(Overflow);
      var kAfter :- Checked(newRa * reserveB).OkOr(Overflow);
      if kAfter < kBefore { return Err(InvariantViolation); }
      reserveA := newRa;
      flashActive := false;
      return Ok(());
    }
  }

  // ---------------------------------------------------------------------------
  // One swap
  // ---------------------------------------------------------------------------

  ghost predicate FeeInRange(feeBps: int) {
    0 <= feeBps <= BPS
  }

  /** What a swap pays when nothing overflows, given its input times the fee complement. */
  function Quote(withFee: nat, rIn: nat, rOut: nat): nat
    requires rIn > 0
  {
    FloorDivAtLeast(withFee * rOut, rIn * BPS + withFee, 0);
    withFee * rOut / (rIn * BPS + withFee)
  }

  /** The quote is the largest output allowed by the fee-adjusted product rule. */
  lemma QuoteIsLargest(f: nat, rIn: nat, rOut: nat, out: nat)
    requires rIn > 0
    ensures out <= Quote(f, rIn, rOut) <==> out * (rIn * BPS + f) <= f * rOut
  {
    var n, d := f * rOut, rIn * BPS + f;
    FloorDiv(n, d);
    if out <= n / d {
      MulMono(out, n / d, d);
    }
    if out * d <= n {
      FloorDivAtLeast(n, d, out);
    }
  }

  lemma AmountOutIsQuote(x: i128, feeBps: i128, rIn: i128, rOut: i128)
    requires x > 0 && rIn > 0 && rOut > 0 && FeeInRange(feeBps)
    requires AmountOut(x, feeBps, rIn, rOut).Ok?
    ensures x * (BPS - feeBps) >= 0
    ensures AmountOut(x, feeBps, rIn, rOut).value == Quote(x * (BPS - feeBps), rIn, rOut)
  {
    MulMono(0, x, BPS - feeBps);
    MulMono(0, x * (BPS - feeBps), rOut);
  }

  /** In range, a swap of `x` pays less than the whole reserve and never lowers the product. */
  lemma QuoteKeepsProduct(x: nat, f: nat, rIn: nat, rOut: nat)
    requires rIn > 0 && rOut > 0 && f <= BPS * x
    ensures Quote(f, rIn, rOut) < rOut
    ensures (rIn + x) * (rOut - Quote(f, rIn, rOut)) >= rIn * rOut
  {
    var o := Quote(f, rIn, rOut);
    QuoteIsLargest(f, rIn, rOut, o);
    hide Quote;
    var d := rIn * BPS;
    MulMono(1, rOut, d);
    assert rOut * (d + f) == rOut * d + f * rOut;
    MulCancel(o, rOut, d + f);
    // o * rIn * BPS <= f * (rOut - o) <= BPS * x * (rOut - o)
    assert o * (d + f) == o * rIn * BPS + o * f;
    assert f * (rOut - o) == f * rOut - o * f;
    MulMono(f, BPS * x, rOut - o);
    assert BPS * x * (rOut - o) == (x * (rOut - o)) * BPS;
    MulCancelLe(o * rIn, x * (rOut - o), BPS);
    assert (rIn + x) * (rOut - o) == rIn * rOut - o * rIn + x * (rOut - o);
  }

  /** The input with fee never exceeds the input at full scale. */
  lemma FeeOnlyTakes(x: nat, feeBps: int)
    requires FeeInRange(feeBps)
    ensures 0 <= x * (BPS - feeBps) <= BPS * x
  {
    MulMono(BPS - feeBps, BPS, x);
    MulMono(0, BPS - feeBps, x);
  }

  datatype Direction = AToB | BToA

  function Swap(p: PoolState, dir: Direction, x: i128, feeBps: i128): Result<(PoolState, i128), AmmError> {
    if dir.AToB? then SwapAForB(p, x, feeBps) else SwapBForA(p, x, feeBps)
  }

  function ReserveIn(p: PoolState, dir: Direction): i128 {
    if dir.AToB? then p.reserveA else p.reserveB
  }

  function ReserveOut(p: PoolState, dir: Direction): i128 {
    if dir.AToB? then p.reserveB else p.reserveA
  }

  /** A successful swap at a fee in range pays the quote and moves both reserves by what was traded. */
  lemma SwapPaysQuote(p: PoolState, dir: Direction, x: i128, feeBps: i128)
    requires FeeInRange(feeBps) && Swap(p, dir, x, feeBps).Ok?
    ensures var (q, out) := Swap(p, dir, x, feeBps).value;
            && x > 0 && ReserveIn(p, dir) > 0 && ReserveOut(p, dir) > 0
            && x * (BPS - feeBps) >= 0
            && out == Quote(x * (BPS - feeBps), ReserveIn(p, dir), ReserveOut(p, dir))
            && 0 <= out < ReserveOut(p, dir)
            && ReserveIn(q, dir) == ReserveIn(p, dir) + x
            && ReserveOut(q, dir) == ReserveOut(p, dir) - out
            && q.flashActive == p.flashActive && q.kBefore == p.kBefore
  {
    AmountOutIsQuote(x, feeBps, ReserveIn(p, dir), ReserveOut(p, dir));
    FeeOnlyTakes(x, feeBps);
    QuoteKeepsProduct(x, x * (BPS - feeBps), ReserveIn(p, dir), ReserveOut(p, dir));
  }

  lemma HelpersNeverBlameTheProduct(p: PoolState, x: i128, feeBps: i128, rIn: i128, rOut: i128)
    ensures ComputeFee(x, feeBps) != Err(InvariantViolation)
    ensures AmountOut(x, feeBps, rIn, rOut) != Err(InvariantViolation)
    ensures forall ra, rb, ra', rb' :: CheckImpact(ra, rb, ra', rb', p.maxImpactBps) != Err(InvariantViolation)
  {
  }

  /** At any fee between 0 and 10000 the product check of a swap never fires, in either direction and
      even while a flash swap is in flight. */
  lemma SwapCheckNeverFires(p: PoolState, dir: Direction, x: i128, feeBps: i128)
    requires FeeInRange(feeBps)
    ensures Swap(p, dir, x, feeBps) != Err(InvariantViolation)
  {
    hide Quote, AmountOut, CheckImpact, ComputeFee;
    var rIn, rOut := ReserveIn(p, dir), ReserveOut(p, dir);
    if x > 0 && rIn > 0 && rOut > 0 && AmountOut(x, feeBps, rIn, rOut).Ok? {
      AmountOutIsQuote(x, feeBps, rIn, rOut);
      FeeOnlyTakes(x, feeBps);
      QuoteKeepsProduct(x, x * (BPS - feeBps), rIn, rOut);
      HelpersNeverBlameTheProduct(p, x, feeBps, rIn, rOut);
    } else {
      HelpersNeverBlameTheProduct(p, x, feeBps, rIn, rOut);
    }
  }

  /** The output, for a given product of input and fee complement. */
  lemma AmountOutUnfolds(x: i128, feeBps: i128, rIn: i128, rOut: i128, f: int, n: int)
    requires f == x * (BPS - feeBps) && n == f * rOut
    ensures AmountOut(x, feeBps, rIn, rOut) ==
            if InI128(BPS - feeBps) && InI128(f) && InI128(n) && InI128(rIn * BPS) && InI128(rIn * BPS + f)
            then CheckedDiv(n, rIn * BPS + f).OkOr(Panicked) else Err(Overflow)
  {
  }

  /** At fees so negative that twice the complement overflows, only the least amounts do not overflow,
      and they pay nothing. */
  lemma VeryNegativeFeePaysNothing(x: i128, feeBps: i128, rIn: i128, rOut: i128)
    requires feeBps < BPS - I128_MAX / 2
    requires x > 0 && rIn > 0 && rOut > 0
    ensures var out := AmountOut(x, feeBps, rIn, rOut);
            out == Err(Overflow) || (x == 1 && rOut == 1 && out == Ok(0))
  {
    var adj := BPS - feeBps;
    assert 2 * adj > I128_MAX;
    AmountOutUnfolds(x, feeBps, rIn, rOut, x * adj, x * adj * rOut);
    hide AmountOut;
    if x >= 2 {
      MulMono(2, x, adj);
    } else if rOut >= 2 {
      MulMono(2, rOut, adj);
    } else {
      assert x * adj == adj && adj * rOut == adj;
      FloorDivAtMost(adj, rIn * BPS + adj, 0);
      FloorDivAtLeast(adj, rIn * BPS + adj, 0);
    }
  }

  lemma VeryNegativeFeeNeverTrips(p: PoolState, dir: Direction, x: i128, feeBps: i128)
    requires feeBps < BPS - I128_MAX / 2
    ensures Swap(p, dir, x, feeBps) != Err(InvariantViolation)
  {
    hide AmountOut, CheckImpact, ComputeFee;
    HelpersNeverBlameTheProduct(p, x, feeBps, ReserveIn(p, dir), ReserveOut(p, dir));
    if x > 0 && ReserveIn(p, dir) > 0 && ReserveOut(p, dir) > 0 {
      VeryNegativeFeePaysNothing(x, feeBps, ReserveIn(p, dir), ReserveOut(p, dir));
    }
  }

  /** Fees at which the check has work to do. */
  predicate CheckNeeded(feeBps: int) {
    BPS - I128_MAX / 2 <= feeBps < 0 || feeBps > BPS
  }

  /** Reserve on both sides, and input, of a swap that trips the check. */
  function TrippingSwap(feeBps: i128): (i128, i128)
    requires CheckNeeded(feeBps)
  {
    if feeBps > 2 * BPS then (1, 1)
    else if feeBps > BPS then (1, 10_001)
    else if feeBps <= -BPS then (2, 1)
    else (2 * BPS - feeBps, 2 * BPS - feeBps)
  }

  function Balanced(reserve: i128): PoolState {
    PoolState(reserve, reserve, 0, 0, false, 0, IMPACT_GUARD_DISABLED, true)
  }

  lemma FeeFits(x: i128, feeBps: i128)
    requires InI128(x * feeBps)
    ensures ComputeFee(x, feeBps).Ok?
  {
  }

  /** A fee above the input: the quotient of two negatives drains a reserve of one. */
  lemma DrainingOutput(x: i128, feeBps: i128, f: int)
    requires f == x * (BPS - feeBps) && -I128_MAX <= f < -BPS && feeBps > BPS && 1 <= x <= 10_001
    ensures AmountOut(x, feeBps, 1, 1).Ok? && 1 <= AmountOut(x, feeBps, 1, 1).value <= 10_001
  {
    AmountOutUnfolds(x, feeBps, 1, 1, f, f);
    hide AmountOut;
    QuotientOfNegatives(-f, BPS, -f - BPS);
    assert f * 1 == f && 1 * BPS + f == -(-f - BPS);
  }

  lemma QuotientOfNegatives(n: int, gap: int, d: int)
    requires d > 0 && gap >= 0 && n == gap + d
    ensures TruncDiv(-n, -d) == n / d && 1 <= n / d <= 1 + gap
  {
    FloorDivAtLeast(n, d, 1);
    MulMono(1, d, gap);
    assert (1 + gap + 1) * d == gap * d + 2 * d;
    FloorDivAtMost(n, d, 1 + gap);
  }

  /** A fee of minus the input or less, still within range: the pool of two pays one for one. */
  lemma DoublingOutput(feeBps: i128)
    requires BPS - I128_MAX / 2 <= feeBps <= -BPS
    ensures AmountOut(1, feeBps, 2, 2) == Ok(1)
  {
    var f := BPS - feeBps;
    AmountOutUnfolds(1, feeBps, 2, 2, f, 2 * f);
    hide AmountOut;
    FloorDivAtLeast(2 * f, 2 * BPS + f, 1);
    FloorDivAtMost(2 * f, 2 * BPS + f, 1);
  }

  /** A smaller negative fee: with this reserve and input the quotient is exactly the fee complement. */
  lemma ComplementOutput(feeBps: i128, r: i128)
    requires -BPS < feeBps < 0 && r == 2 * BPS - feeBps
    ensures AmountOut(r, feeBps, r, r) == Ok(BPS - feeBps)
  {
    var adj := BPS - feeBps;
    var f := r * adj;
    var n := f * r;
    ComplementBounds(r, adj);
    ComplementQuotient(r, adj, f, n, r * BPS + f);
    AmountOutUnfolds(r, feeBps, r, r, f, n);
    hide AmountOut;
  }

  lemma ComplementQuotient(r: nat, adj: nat, f: int, n: int, d: int)
    requires r > 0 && r == BPS + adj && f == r * adj && n == f * r && d == r * BPS + f
    ensures d > 0 && n >= 0 && n / d == adj
  {
    assert d == r * r by {
      assert r * (BPS + adj) == r * BPS + r * adj;
    }
    assert n == adj * (r * r);
    MulMono(1, r, r);
    MulMono(0, adj, r * r);
    DivModUnique(n, d, adj, 0);
  }

  lemma ComplementBounds(r: nat, adj: nat)
    requires 1 <= r <= 3 * BPS && adj <= 2 * BPS
    ensures 0 <= r * adj <= 6 * BPS * BPS
    ensures 0 <= r * adj * r <= 18 * BPS * BPS * BPS
    ensures 0 < r * r
  {
    var f := r * adj;
    MulMono(r, 3 * BPS, adj);
    MulMono(0, r, adj);
    assert f <= 6 * BPS * BPS;
    MulMono(f, 6 * BPS * BPS, r);
    MulMono(0, f, r);
    MulMono(1, r, r);
  }

  /** What that swap would pay, and that paying it lowers the product. */
  lemma TrippingOutput(feeBps: i128)
    requires CheckNeeded(feeBps)
    ensures var (r, x) := TrippingSwap(feeBps);
            && r > 0 && x > 0 && ComputeFee(x, feeBps).Ok? && AmountOut(x, feeBps, r, r).Ok?
            && var out: int := AmountOut(x, feeBps, r, r).value;
               && InI128(r - out) && (r + x) * (r - out) < r * r && InI128((r + x) * (r - out)) && InI128(r * r)
               && InI128(r + x)
  {
    hide AmountOut, ComputeFee;
    if feeBps > 2 * BPS {
      FeeFits(1, feeBps);
      DrainingOutput(1, feeBps, BPS - feeBps);
    } else if feeBps > BPS {
      FeeFits(10_001, feeBps);
      DrainingOutput(10_001, feeBps, 10_001 * (BPS - feeBps));
    } else if feeBps <= -BPS {
      FeeFits(1, feeBps);
      DoublingOutput(feeBps);
    } else {
      var r := 2 * BPS - feeBps;
      MulMono(-feeBps, BPS, r);
      assert -feeBps * r == -(r * feeBps);
      MulMono(0, -feeBps, r);
      FeeFits(r, feeBps);
      ComplementOutput(feeBps, r);
      assert (r + r) * (r - (BPS - feeBps)) == 2 * BPS * r;
      MulMono(2 * BPS + 1, r, r);
      MulMono(r, 3 * BPS, r);
    }
  }

  /** The fees at which the product check can fire, exactly: some swap in the given direction trips it if
      and only if the fee is above the whole input, or negative without overflowing every product. */
  lemma CheckFiresIff(dir: Direction, feeBps: i128)
    ensures (exists p, x :: Swap(p, dir, x, feeBps) == Err(InvariantViolation)) <==> CheckNeeded(feeBps)
  {
    hide CheckNeeded;
    if CheckNeeded(feeBps) {
      SomeSwapTrips(dir, feeBps);
    } else {
      forall p, x ensures Swap(p, dir, x, feeBps) != Err(InvariantViolation) {
        NoSwapTrips(p, dir, x, feeBps);
      }
    }
  }

  lemma SomeSwapTrips(dir: Direction, feeBps: i128)
    requires CheckNeeded(feeBps)
    ensures exists p, x :: Swap(p, dir, x, feeBps) == Err(InvariantViolation)
  {
    var (r, x) := TrippingSwap(feeBps);
    TrippingOutput(feeBps);
    hide AmountOut, ComputeFee, TrippingSwap, CheckNeeded;
    ProductTrips(r, x, AmountOut(x, feeBps, r, r).value);
    hide AssertKMonotonic;
    assert Swap(Balanced(r), dir, x, feeBps) == Err(InvariantViolation);
  }

  lemma ProductTrips(r: i128, x: i128, out: i128)
    requires InI128(r - out) && InI128(r + x) && InI128(r * r) && InI128((r + x) * (r - out))
    requires (r + x) * (r - out) < r * r
    ensures AssertKMonotonic(r, r, r + x, r - out, true) == Err(InvariantViolation)
    ensures AssertKMonotonic(r, r, r - out, r + x, true) == Err(InvariantViolation)
  {
    assert (r - out) * (r + x) == (r + x) * (r - out);
  }

  lemma NoSwapTrips(p: PoolState, dir: Direction, x: i128, feeBps: i128)
    requires !CheckNeeded(feeBps)
    ensures Swap(p, dir, x, feeBps) != Err(InvariantViolation)
  {
    hide Swap;
    if feeBps < 0 {
      VeryNegativeFeeNeverTrips(p, dir, x, feeBps);
    } else {
      SwapCheckNeverFires(p, dir, x, feeBps);
    }
  }

  // ---------------------------------------------------------------------------
  // What each call accepts and leaves
  // ---------------------------------------------------------------------------

  /** What a successful swap leaves: the largest output the fee-adjusted product rule allows, the input on
      one side and the output off the other, the floored fee in the counter of the input side, and the rest
      as it was. */
  lemma SwapLeaves(p: PoolState, dir: Direction, x: i128, feeBps: i128)
    requires FeeInRange(feeBps) && Swap(p, dir, x, feeBps).Ok?
    ensures var (q, out) := Swap(p, dir, x, feeBps).value;
            var paid, depth := x * (10_000 - feeBps), ReserveIn(p, dir) * 10_000 + x * (10_000 - feeBps);
            && out * depth <= paid * ReserveOut(p, dir) < (out + 1) * depth
            && ReserveIn(q, dir) == ReserveIn(p, dir) + x && ReserveOut(q, dir) == ReserveOut(p, dir) - out
            && FeeOf(q, dir) == Min(FeeOf(p, dir) + x * feeBps / 10_000, I128_MAX)
            && FeeOf(q, Opposite(dir)) == FeeOf(p, Opposite(dir))
            && q.flashActive == p.flashActive && q.kBefore == p.kBefore && q.maxImpactBps == p.maxImpactBps
  {
    SwapPaysQuote(p, dir, x, feeBps);
    var out := Swap(p, dir, x, feeBps).value.1;
    var f := x * (BPS - feeBps);
    QuoteIsLargest(f, ReserveIn(p, dir), ReserveOut(p, dir), out);
    QuoteIsLargest(f, ReserveIn(p, dir), ReserveOut(p, dir), out + 1);
    FeeIsPart(x, feeBps);
    FeeIsFloor(x, feeBps);
    hide Quote, AmountOut, CheckImpact, AssertKMonotonic, ComputeFee;
  }

  function Opposite(dir: Direction): Direction {
    if dir.AToB? then BToA else AToB
  }

  lemma FeeIsFloor(x: i128, feeBps: i128)
    requires x > 0 && FeeInRange(feeBps)
    ensures ComputeFee(x, feeBps) == if InI128(x * feeBps) then Ok(x * feeBps / 10_000) else Err(Overflow)
  {
    MulMono(0, feeBps, x);
  }

  /** None of the products of a swap leaves i128. */
  ghost predicate SwapFits(p: PoolState, dir: Direction, x: i128, feeBps: i128)
    requires ReserveIn(p, dir) > 0 && x > 0 && ReserveOut(p, dir) > 0 && FeeInRange(feeBps)
  {
    var rIn, rOut, f := ReserveIn(p, dir), ReserveOut(p, dir), PaidIn(x, feeBps);
    && InI128(x * feeBps) && InI128(f) && InI128(f * rOut)
    && InI128(rIn * 10_000) && InI128(rIn * 10_000 + f) && InI128(rIn + x)
    && InI128(rIn * rOut) && InI128((rIn + x) * (rOut - Quote(f, rIn, rOut)))
  }

  /** Input times the complement of the fee. */
  function PaidIn(x: nat, feeBps: int): nat
    requires FeeInRange(feeBps)
  {
    FeeOnlyTakes(x, feeBps);
    x * (10_000 - feeBps)
  }

  /** The spot price falls by less than (most + 1) / 10000 of itself, in products that fit. */
  ghost predicate ImpactAllowed(ra: int, rb: int, newRa: int, newRb: int, most: nat) {
    most == IMPACT_GUARD_DISABLED
    || (&& InI128(newRb * ra) && InI128(rb * newRa) && InI128((rb * newRa - newRb * ra) * 10_000)
        && (rb * newRa - newRb * ra) * 10_000 < (most + 1) * (rb * newRa))
  }

  lemma ImpactAllowedIff(ra: i128, rb: i128, newRa: i128, newRb: i128, most: nat)
    requires 0 < ra <= newRa && 0 <= newRb <= rb && 0 < rb
    ensures CheckImpact(ra, rb, newRa, newRb, most).Ok? <==> ImpactAllowed(ra, rb, newRa, newRb, most)
  {
    var num, den := newRb * ra, rb * newRa;
    MulMono(newRb, rb, ra);
    MulMono(ra, newRa, rb);
    MulMono(1, rb, newRa);
    MulMono(0, newRb, ra);
    assert 0 <= num <= den && den > 0;
    ImpactQuotient((den - num) * BPS, den, most);
  }

  lemma ImpactQuotient(a: nat, b: nat, most: nat)
    requires b > 0
    ensures TruncDiv(a, b) == a / b && (a / b <= most <==> a < (most + 1) * b) && 0 <= a / b <= a
  {
    FloorDivAtLeast(a, b, 0);
    MulMono(1, b, a + 1);
    FloorDivAtMost(a, b, a);
    if a / b <= most {
      FloorBelow(a, b, most);
    }
    if a < (most + 1) * b {
      FloorDivAtMost(a, b, most);
    }
  }

  /** Which swaps succeed, exactly, at fees from 0 to 10000. */
  lemma SwapSucceedsIff(p: PoolState, dir: Direction, x: i128, feeBps: i128)
    requires FeeInRange(feeBps)
    ensures Swap(p, dir, x, feeBps).Ok? <==>
            && x > 0 && ReserveIn(p, dir) > 0 && ReserveOut(p, dir) > 0
            && !(dir.AToB? && p.guardsAToB && p.flashActive)
            && SwapFits(p, dir, x, feeBps)
            && (dir.AToB? ==>
                  ImpactAllowed(p.reserveA, p.reserveB, p.reserveA + x,
                                p.reserveB - Quote(PaidIn(x, feeBps), p.reserveA, p.reserveB), p.maxImpactBps))
  {
    var rIn, rOut := ReserveIn(p, dir), ReserveOut(p, dir);
    if x > 0 && rIn > 0 && rOut > 0 {
      var out := Quote(PaidIn(x, feeBps), rIn, rOut);
      FeeIsFloor(x, feeBps);
      OutputIff(x, feeBps, rIn, rOut);
      ProductCheckIff(x, feeBps, rIn, rOut, out);
      if dir.AToB? && InI128(rIn + x) {
        ImpactAllowedIff(rIn, rOut, rIn + x, rOut - out, p.maxImpactBps);
      }
      SwapStages(p, dir, x, feeBps, out);
      hide Swap, Quote, AmountOut, CheckImpact, ComputeFee, ImpactAllowed, PaidIn, AssertKMonotonic;
    }
  }

  /** The checks of a swap, in any order. */
  lemma SwapStages(p: PoolState, dir: Direction, x: i128, feeBps: i128, out: nat)
    requires x > 0 && ReserveIn(p, dir) > 0 && ReserveOut(p, dir) > 0 && out < ReserveOut(p, dir)
    requires var amount := AmountOut(x, feeBps, ReserveIn(p, dir), ReserveOut(p, dir)); amount.Ok? ==> amount.value == out
    ensures var rIn, rOut := ReserveIn(p, dir), ReserveOut(p, dir);
            Swap(p, dir, x, feeBps).Ok? <==>
              && !(dir.AToB? && p.guardsAToB && p.flashActive)
              && ComputeFee(x, feeBps).Ok? && AmountOut(x, feeBps, rIn, rOut).Ok? && InI128(rIn + x)
              && (if dir.AToB? then AssertKMonotonic(rIn, rOut, rIn + x, rOut - out, true).Ok?
                  else AssertKMonotonic(rOut, rIn, rOut - out, rIn + x, true).Ok?)
              && (dir.AToB? ==> CheckImpact(rIn, rOut, rIn + x, rOut - out, p.maxImpactBps).Ok?)
  {
    hide AmountOut, CheckImpact, ComputeFee, AssertKMonotonic;
  }

  lemma ProductCheckIff(x: i128, feeBps: i128, rIn: i128, rOut: i128, out: nat)
    requires x > 0 && rIn > 0 && rOut > 0 && FeeInRange(feeBps) && out == Quote(PaidIn(x, feeBps), rIn, rOut)
    ensures out < rOut
    ensures InI128(rIn + x) ==>
              var fits := InI128(rIn * rOut) && InI128((rIn + x) * (rOut - out));
              && (AssertKMonotonic(rIn, rOut, rIn + x, rOut - out, true).Ok? <==> fits)
              && (AssertKMonotonic(rOut, rIn, rOut - out, rIn + x, true).Ok? <==> fits)
  {
    FeeOnlyTakes(x, feeBps);
    QuoteKeepsProduct(x, PaidIn(x, feeBps), rIn, rOut);
    hide Quote, PaidIn;
    assert (rIn + x) * (rOut - out) == (rOut - out) * (rIn + x) && rIn * rOut == rOut * rIn;
  }

  lemma OutputIff(x: i128, feeBps: i128, rIn: i128, rOut: i128)
    requires x > 0 && rIn > 0 && rOut > 0 && FeeInRange(feeBps)
    ensures var f := PaidIn(x, feeBps);
            AmountOut(x, feeBps, rIn, rOut).Ok? <==>
              InI128(f) && InI128(f * rOut) && InI128(rIn * 10_000) && InI128(rIn * 10_000 + f)
    ensures AmountOut(x, feeBps, rIn, rOut).Ok? ==>
              AmountOut(x, feeBps, rIn, rOut).value == Quote(PaidIn(x, feeBps), rIn, rOut)
  {
    var f := PaidIn(x, feeBps);
    var n, d := f * rOut, rIn * BPS + f;
    AmountOutUnfolds(x, feeBps, rIn, rOut, f, n);
    MulMono(0, f, rOut);
    hide AmountOut, PaidIn;
    ImpactQuotient(n, d, 0);
  }

  /** An addition succeeds exactly when idle, without overflow and without lowering the product. It then
      adds each amount to its own side and nothing else. */
  lemma AddLeaves(p: PoolState, addA: i128, addB: i128)
    ensures var a, b := p.reserveA + addA, p.reserveB + addB;
            && (AddLiquidity(p, addA, addB).Ok? <==>
                  && !p.flashActive && InI128(a) && InI128(b) && InI128(p.reserveA * p.reserveB) && InI128(a * b)
                  && a * b >= p.reserveA * p.reserveB)
            && (AddLiquidity(p, addA, addB).Ok? ==>
                  var q := AddLiquidity(p, addA, addB).value;
                  && q.reserveA - p.reserveA == addA && q.reserveB - p.reserveB == addB
                  && SameButReserves(q, p) && q.flashActive == p.flashActive && q.kBefore == p.kBefore)
  {
  }

  /** Fees, the impact bound and the reading of the guard are as they were. */
  ghost predicate SameButReserves(q: PoolState, p: PoolState) {
    && q.feeA == p.feeA && q.feeB == p.feeB
    && q.maxImpactBps == p.maxImpactBps && q.guardsAToB == p.guardsAToB
  }

  /** A flash swap succeeds exactly when idle and short of the reserve. It takes the output, stores the
      product from before and marks itself in flight. */
  lemma FlashLeaves(p: PoolState, amountOut: i128, feeBps: i128)
    ensures FlashSwapAForB(p, amountOut, feeBps).Ok? <==>
            && !p.flashActive && 0 < amountOut < p.reserveB && 0 <= feeBps < 10_000 && p.reserveA > 0
            && InI128(p.reserveA * p.reserveB)
    ensures FlashSwapAForB(p, amountOut, feeBps).Ok? ==>
              var q := FlashSwapAForB(p, amountOut, feeBps).value;
              && q.reserveA == p.reserveA && p.reserveB - q.reserveB == amountOut
              && q.flashActive && q.kBefore == p.reserveA * p.reserveB && SameButReserves(q, p)
  {
  }

  /** A repayment succeeds exactly in flight and when it restores the stored product. It adds its amount to
      reserve A, ends the flash swap and changes nothing else. */
  lemma RepayLeaves(p: PoolState, amountIn: i128)
    ensures RepayFlashSwap(p, amountIn).Ok? <==>
            && p.flashActive && amountIn > 0 && InI128(p.reserveA + amountIn)
            && InI128((p.reserveA + amountIn) * p.reserveB)
            && (p.reserveA + amountIn) * p.reserveB >= p.kBefore
    ensures RepayFlashSwap(p, amountIn).Ok? ==>
              var q := RepayFlashSwap(p, amountIn).value;
              && q.reserveA - p.reserveA == amountIn && q.reserveB == p.reserveB
              && !q.flashActive && q.kBefore == p.kBefore && SameButReserves(q, p)
  {
  }

  // ---------------------------------------------------------------------------
  // Whole runs
  // ---------------------------------------------------------------------------

  datatype Op =
    | DoSwap(dir: Direction, amountIn: i128, feeBps: i128)
    | DoAdd(addA: i128, addB: i128)
    | DoFlash(amountOut: i128, feeBps: i128)
    | DoRepay(amountIn: i128)

  function Step(p: PoolState, op: Op): PoolState {
    match op
    case DoSwap(dir, x, fee) => (match Swap(p, dir, x, fee) case Ok((q, _)) => q case Err(_) => p)
    case DoAdd(a, b) => (match AddLiquidity(p, a, b) case Ok(q) => q case Err(_) => p)
    case DoFlash(out, fee) => (match FlashSwapAForB(p, out, fee) case Ok(q) => q case Err(_) => p)
    case DoRepay(x) => (match RepayFlashSwap(p, x) case Ok(q) => q case Err(_) => p)
  }

  function Run(p: PoolState, ops: seq<Op>): PoolState {
    if ops == [] then p else Step(Run(p, ops[..|ops| - 1]), ops[|ops| - 1])
  }

  /** The product the pool answers for: the stored one while a flash swap is in flight. */
  function EffectiveK(p: PoolState): int {
    if p.flashActive then p.kBefore else p.reserveA * p.reserveB
  }

  lemma StepKeepsEffectiveK(p: PoolState, op: Op)
    ensures EffectiveK(Step(p, op)) >= EffectiveK(p)
  {
  }

  /** Over any run of swaps both ways, liquidity additions, flash swaps and repayments, interleaved in
      any order, with any amounts and any fees, the effective product never decreases. */
  lemma {:induction false} EffectiveKNeverDecreases(p: PoolState, ops: seq<Op>)
    ensures EffectiveK(Run(p, ops)) >= EffectiveK(p)
  {
    if ops == [] {
    } else {
      EffectiveKNeverDecreases(p, ops[..|ops| - 1]);
      StepKeepsEffectiveK(Run(p, ops[..|ops| - 1]), ops[|ops| - 1]);
    }
  }

  /** Flash swaps and repayments accepted in a run. */
  function Flashes(p: PoolState, ops: seq<Op>): nat {
    if ops == [] then 0
    else
      var front, op := ops[..|ops| - 1], ops[|ops| - 1];
      Flashes(p, front)
      + if op.DoFlash? && FlashSwapAForB(Run(p, front), op.amountOut, op.feeBps).Ok? then 1 else 0
  }

  function Repayments(p: PoolState, ops: seq<Op>): nat {
    if ops == [] then 0
    else
      var front, op := ops[..|ops| - 1], ops[|ops| - 1];
      Repayments(p, front) + if op.DoRepay? && RepayFlashSwap(Run(p, front), op.amountIn).Ok? then 1 else 0
  }

  lemma StepKeepsFlag(p: PoolState, op: Op)
    ensures Step(p, op).flashActive ==
            if op.DoFlash? && FlashSwapAForB(p, op.amountOut, op.feeBps).Ok? then true
            else if op.DoRepay? && RepayFlashSwap(p, op.amountIn).Ok? then false
            else p.flashActive
  {
    hide ComputeFee, AmountOut, CheckImpact, AssertKMonotonic;
  }

  /** Accepted flash swaps and accepted repayments alternate: from an idle pool, at every point of every run
      the flash swaps are ahead by one exactly while one is in flight, and level otherwise. */
  lemma {:induction false} FlashSwapsAlternate(p: PoolState, ops: seq<Op>)
    requires !p.flashActive
    ensures Flashes(p, ops) == Repayments(p, ops) + if Run(p, ops).flashActive then 1 else 0
  {
    if ops == [] {
    } else {
      var front, op := ops[..|ops| - 1], ops[|ops| - 1];
      FlashSwapsAlternate(p, front);
      StepKeepsFlag(Run(p, front), op);
      if op.DoFlash? {
        FlashLeaves(Run(p, front), op.amountOut, op.feeBps);
      } else if op.DoRepay? {
        RepayLeaves(Run(p, front), op.amountIn);
      }
      hide Step, FlashSwapAForB, RepayFlashSwap;
    }
  }

  /** Fees in range and non-negative deposits: what the callers are expected to send. */
  ghost predicate Sane(op: Op) {
    match op
    case DoSwap(_, _, fee) => FeeInRange(fee)
    case DoAdd(a, b) => a >= 0 && b >= 0
    case DoFlash(_, _) => true
    case DoRepay(_) => true
  }

  lemma StepKeepsReservesPositive(p: PoolState, op: Op)
    requires Sane(op) && p.reserveA > 0 && p.reserveB > 0
    ensures Step(p, op).reserveA > 0 && Step(p, op).reserveB > 0
  {
    if op.DoSwap? && Swap(p, op.dir, op.amountIn, op.feeBps).Ok? {
      SwapPaysQuote(p, op.dir, op.amountIn, op.feeBps);
    }
  }

  lemma {:induction false} RunKeepsReservesPositive(p: PoolState, ops: seq<Op>)
    requires p.reserveA > 0 && p.reserveB > 0
    requires forall i :: 0 <= i < |ops| ==> Sane(ops[i])
    ensures Run(p, ops).reserveA > 0 && Run(p, ops).reserveB > 0
  {
    if ops == [] {
    } else {
      RunKeepsReservesPositive(p, ops[..|ops| - 1]);
      StepKeepsReservesPositive(Run(p, ops[..|ops| - 1]), ops[|ops| - 1]);
    }
  }

  /** No round trip gains: between two idle states of any run, if one reserve has not grown then the
      other has not shrunk. */
  lemma NoProfitableRoundTrip(p: PoolState, ops: seq<Op>)
    requires p.reserveA > 0 && p.reserveB > 0 && !p.flashActive
    requires forall i :: 0 <= i < |ops| ==> Sane(ops[i])
    requires !Run(p, ops).flashActive
    ensures Run(p, ops).reserveB <= p.reserveB ==> Run(p, ops).reserveA >= p.reserveA
    ensures Run(p, ops).reserveA <= p.reserveA ==> Run(p, ops).reserveB >= p.reserveB
  {
    EffectiveKNeverDecreases(p, ops);
    RunKeepsReservesPositive(p, ops);
    var q := Run(p, ops);
    hide Run, Step, Sane;
    NeitherShrinksAlone(p.reserveA, p.reserveB, q.reserveA, q.reserveB);
  }

  lemma NeitherShrinksAlone(a: int, b: int, a': int, b': int)
    requires 0 < a && 0 < b && 0 < a' && 0 < b' && a' * b' >= a * b
    ensures b' <= b ==> a' >= a
    ensures a' <= a ==> b' >= b
  {
    if b' <= b {
      MulMono(b', b, a');
      MulCancelLe(a, a', b);
    }
    if a' <= a {
      MulMono(a', a, b');
      MulCancelLe(b, b', a);
    }
  }

  /** Inputs taken by the successful swaps of a run in one direction. */
  function InputTotal(p: PoolState, ops: seq<Op>, dir: Direction): int {
    if ops == [] then 0
    else
      var front, op := ops[..|ops| - 1], ops[|ops| - 1];
      InputTotal(p, front, dir)
      + if op.DoSwap? && op.dir == dir && Swap(Run(p, front), dir, op.amountIn, op.feeBps).Ok? then op.amountIn else 0
  }

  function FeeOf(p: PoolState, dir: Direction): i128 {
    if dir.AToB? then p.feeA else p.feeB
  }

  lemma StepFees(p: PoolState, op: Op, dir: Direction)
    requires Sane(op)
    ensures var taken := if op.DoSwap? && op.dir == dir && Swap(p, dir, op.amountIn, op.feeBps).Ok? then op.amountIn else 0;
            FeeOf(p, dir) <= FeeOf(Step(p, op), dir) <= FeeOf(p, dir) + taken
  {
    match op {
      case DoSwap(to, x, fee) =>
        if Swap(p, to, x, fee).Ok? {
          FeeIsPart(x, fee);
          hide AmountOut, CheckImpact, AssertKMonotonic, ComputeFee;
        }
      case DoAdd(_, _) =>
      case DoFlash(_, _) =>
      case DoRepay(_) =>
    }
  }

  lemma FeeIsPart(x: i128, feeBps: i128)
    requires x > 0 && FeeInRange(feeBps) && ComputeFee(x, feeBps).Ok?
    ensures 0 <= ComputeFee(x, feeBps).value <= x
  {
    MulMono(0, feeBps, x);
    MulMono(feeBps, BPS, x);
  }

  /** Each fee counter never decreases, and never gains more than the inputs of its own side. */
  lemma {:induction false} FeesWithinInputs(p: PoolState, ops: seq<Op>, dir: Direction)
    requires forall i :: 0 <= i < |ops| ==> Sane(ops[i])
    ensures FeeOf(p, dir) <= FeeOf(Run(p, ops), dir) <= FeeOf(p, dir) + InputTotal(p, ops, dir)
  {
    hide Step, Swap, Sane;
    if ops == [] {
    } else {
      FeesWithinInputs(p, ops[..|ops| - 1], dir);
      StepFees(Run(p, ops[..|ops| - 1]), ops[|ops| - 1], dir);
    }
  }

  /** With the guard on, an A to B swap that succeeds lowers the spot price rb / ra by a fraction below
      (max + 1) / 10000, exactly. */
  lemma ImpactIsBounded(p: PoolState, x: i128, feeBps: i128)
    requires FeeInRange(feeBps) && p.maxImpactBps != IMPACT_GUARD_DISABLED && SwapAForB(p, x, feeBps).Ok?
    ensures var q := SwapAForB(p, x, feeBps).value.0;
            (p.reserveB * q.reserveA - q.reserveB * p.reserveA) * BPS < (p.maxImpactBps + 1) * (p.reserveB * q.reserveA)
  {
    SwapPaysQuote(p, AToB, x, feeBps);
    hide Quote, AmountOut, AssertKMonotonic, ComputeFee, CheckImpact;
    var q := SwapAForB(p, x, feeBps).value.0;
    GuardMeaning(p.reserveA, p.reserveB, q.reserveA, q.reserveB, p.maxImpactBps);
  }

  /** What the guard lets through. */
  lemma GuardMeaning(ra: i128, rb: i128, newRa: i128, newRb: i128, most: nat)
    requires 0 < ra <= newRa && 0 <= newRb <= rb && 0 < rb
    requires most != IMPACT_GUARD_DISABLED && CheckImpact(ra, rb, newRa, newRb, most).Ok?
    ensures (rb * newRa - newRb * ra) * BPS < (most + 1) * (rb * newRa)
  {
    var num, den := newRb * ra, rb * newRa;
    MulMono(newRb, rb, ra);
    MulMono(ra, newRa, rb);
    MulMono(1, rb, newRa);
    assert TruncDiv((den - num) * BPS, den) <= most;
    hide CheckImpact;
    FloorBelow((den - num) * BPS, den, most);
  }

  lemma FloorBelow(a: nat, b: nat, most: nat)
    requires b > 0 && TruncDiv(a, b) <= most
    ensures a < (most + 1) * b
  {
    FloorDiv(a, b);
    MulMono(a / b, most, b);
    assert (most + 1) * b == most * b + b;
  }

  // ---------------------------------------------------------------------------
  // Splitting a swap
  // ---------------------------------------------------------------------------

  /** Total output of swaps made one after another, when all succeed. */
  function SwapAll(p: PoolState, dir: Direction, xs: seq<i128>, feeBps: i128): Result<int, AmmError>
    decreases |xs|
  {
    if xs == [] then Ok(0)
    else
      var (q, out) :- Swap(p, dir, xs[0], feeBps);
      var rest :- SwapAll(q, dir, xs[1..], feeBps);
      Ok(out + rest)
  }

  /** Two swaps in a row pay at most one swap of both inputs, floors included. */
  lemma TwoSwapsPayLess(x: nat, f: nat, g: nat, rIn: nat, rOut: nat)
    requires rIn > 0 && rOut > 0 && f <= BPS * x
    ensures Quote(f, rIn, rOut) < rOut
    ensures Quote(f, rIn, rOut) + Quote(g, rIn + x, rOut - Quote(f, rIn, rOut)) <= Quote(f + g, rIn, rOut)
  {
    QuoteKeepsProduct(x, f, rIn, rOut);
    var o1 := Quote(f, rIn, rOut);
    var o2 := Quote(g, rIn + x, rOut - o1);
    QuoteIsLargest(f, rIn, rOut, o1);
    QuoteIsLargest(g, rIn + x, rOut - o1, o2);
    TwoOutputs(rIn * BPS, f, g, (rIn + x) * BPS + g, rOut, o1, o2);
    QuoteIsLargest(f + g, rIn, rOut, o1 + o2);
  }

  /** The arithmetic of it: the second denominator is at least that of the single swap. */
  lemma TwoOutputs(d: nat, f: nat, g: nat, second: nat, rOut: nat, o1: nat, o2: nat)
    requires o1 * (d + f) <= f * rOut
    requires o2 * second <= g * (rOut - o1)
    requires d + f + g <= second
    ensures (o1 + o2) * (d + f + g) <= (f + g) * rOut
  {
    MulMono(d + f + g, second, o2);
    assert g * (rOut - o1) == g * rOut - o1 * g;
    assert (o1 + o2) * (d + f + g) == o1 * (d + f) + o1 * g + o2 * (d + f + g);
    assert (f + g) * rOut == f * rOut + g * rOut;
  }

  /** Splitting a swap never pays more: any list of amounts swapped one after another in one direction
      at one fee pays in total at most the quote, and so at most the output, of one swap of the sum. */
  lemma {:induction false} SplitSwapsPayLess(p: PoolState, dir: Direction, xs: seq<i128>, feeBps: i128)
    requires FeeInRange(feeBps) && SwapAll(p, dir, xs, feeBps).Ok?
    requires ReserveIn(p, dir) > 0 && ReserveOut(p, dir) > 0
    ensures SumOf(xs) >= 0 && SumOf(xs) * (BPS - feeBps) >= 0
    ensures SwapAll(p, dir, xs, feeBps).value
            <= Quote(SumOf(xs) * (BPS - feeBps), ReserveIn(p, dir), ReserveOut(p, dir))
    ensures InI128(SumOf(xs)) && Swap(p, dir, SumOf(xs), feeBps).Ok? ==>
              SwapAll(p, dir, xs, feeBps).value <= Swap(p, dir, SumOf(xs), feeBps).value.1
    decreases |xs|
  {
    hide Quote, SwapAForB, SwapBForA;
    if xs == [] {
      QuoteIsLargest(0, ReserveIn(p, dir), ReserveOut(p, dir), 0);
    } else {
      var x, y := xs[0], SumOf(xs[1..]);
      SwapPaysQuote(p, dir, x, feeBps);
      FeeOnlyTakes(x, feeBps);
      var q := Swap(p, dir, x, feeBps).value.0;
      SplitSwapsPayLess(q, dir, xs[1..], feeBps);
      TwoSwapsPayLess(x, x * (BPS - feeBps), y * (BPS - feeBps), ReserveIn(p, dir), ReserveOut(p, dir));
      assert (x + y) * (BPS - feeBps) == x * (BPS - feeBps) + y * (BPS - feeBps);
    }
    if InI128(SumOf(xs)) && Swap(p, dir, SumOf(xs), feeBps).Ok? {
      SwapPaysQuote(p, dir, SumOf(xs), feeBps);
    }
  }

  // ---------------------------------------------------------------------------
  // Repaying a flash swap
  // ---------------------------------------------------------------------------

  /** `inverse_swap_in`: ra * out / (rb - out), rounded up. */
  function InverseSwapIn(ra: nat, rb: nat, amountOut: nat): int
    requires amountOut < rb
  {
    (ra * amountOut + (rb - amountOut) - 1) / (rb - amountOut)
  }

  /** With nothing in between, a repayment that overflows nothing is accepted exactly when it is at
      least the published minimum. */
  lemma MinimalRepayment(p: PoolState, amountOut: i128, feeBps: i128, amountIn: i128)
    requires FlashSwapAForB(p, amountOut, feeBps).Ok? && amountIn > 0
    requires InI128(p.reserveA + amountIn) && InI128((p.reserveA + amountIn) * (p.reserveB - amountOut))
    ensures RepayFlashSwap(FlashSwapAForB(p, amountOut, feeBps).value, amountIn).Ok? <==>
            amountIn >= InverseSwapIn(p.reserveA, p.reserveB, amountOut)
  {
    hide InverseSwapIn;
    RepaymentIsCeiling(p.reserveA, p.reserveB, amountOut, amountIn);
  }

  lemma RepaymentIsCeiling(ra: nat, rb: nat, out: nat, x: nat)
    requires out < rb
    ensures (ra + x) * (rb - out) >= ra * rb <==> x >= InverseSwapIn(ra, rb, out)
  {
    var rest := rb - out;
    var n := ra * out + rest - 1;
    assert (ra + x) * rest == ra * rest + x * rest;
    assert ra * rb == ra * rest + ra * out;
    assert (x + 1) * rest == x * rest + rest;
    FloorDiv(n, rest);
    if x * rest >= ra * out {
      FloorDivAtMost(n, rest, x);
    }
    if x >= n / rest {
      MulMono(n / rest, x, rest);
    }
  }
}
