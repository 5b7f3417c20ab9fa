/** Debt positions and interest accrual (stellar-lend/contracts/lending/src/debt.rs and
    rounding_strategy.rs), with the insurance share taken on settlement (lib.rs). */
module Debt {
  import opened Numeric

  const INTEREST_PRECISION: int := 1_000_000
  /** Seconds per year times basis points. */
  const YEAR_BPS: int := 315_360_000_000
  const BPS_DENOM: i128 := 10_000
  const DEFAULT_APR_BPS: i128 := 500

  datatype LendingError =
    | InvalidAmount
    | Overflow
    | DivisionByZero
    | AssetNotConfigured
    | PriceFeedNotFound
    | StaleOracleTimestamp
    | OracleReplay
    | BelowMinimumBorrow
    | HealthFactorTooLow
    | DebtCeilingExceeded
    | BorrowCapExceeded
    | PositionHealthy
    | NoBadDebt
    | WriteOffExceedsBadDebt

  datatype DebtPosition = DebtPosition(principal: i128, lastUpdate: u64)

  // ---------------------------------------------------------------------------
  // Interest
  // ---------------------------------------------------------------------------

  /** Quotient rounded to nearest, ties to even. */
  function RoundBankers(quotient: nat, remainder: nat, divisor: nat): nat {
    if remainder < divisor / 2 then quotient
    else if remainder > divisor / 2 then quotient + 1
    else if quotient % 2 == 0 then quotient
    else quotient + 1
  }

  /** Interest for an exact amount of principal-seconds-bps, at six digits and then floored. */
  function InterestOf(exact: nat): nat {
    var scaled := exact * INTEREST_PRECISION;
    RoundBankers(scaled / YEAR_BPS, scaled % YEAR_BPS, YEAR_BPS) / INTEREST_PRECISION
  }

  /** `accrue_interest` with bankers rounding. */
  function AccrueInterest(principal: i128, elapsed: nat, rateBps: i128): Result<i128, LendingError> {
    if principal == 0 || elapsed == 0 then Ok(0)
    else if principal < 0 || rateBps < 0 then Err(Overflow)
    else
      var x :- Checked(principal * elapsed).OkOr(Overflow);
      var y :- Checked(x * rateBps).OkOr(Overflow);
      var z :- Checked(y * INTEREST_PRECISION).OkOr(Overflow);
      InterestFits(y);
      Ok(InterestOf(y))
  }

  /** Ties go to the even quotient. */
  lemma TiesGoToEven(scaled: nat)
    ensures var m := RoundBankers(scaled / YEAR_BPS, scaled % YEAR_BPS, YEAR_BPS);
            2 * (m * YEAR_BPS - scaled) == YEAR_BPS || 2 * (scaled - m * YEAR_BPS) == YEAR_BPS ==> m % 2 == 0
  {
  }

  lemma RoundingIsNearest(scaled: nat)
    ensures var m := RoundBankers(scaled / YEAR_BPS, scaled % YEAR_BPS, YEAR_BPS);
            -YEAR_BPS <= 2 * (m * YEAR_BPS - scaled) <= YEAR_BPS
  {
  }

  lemma InterestFits(exact: nat)
    ensures InterestOf(exact) <= exact + 1
  {
    RoundingIsNearest(exact * INTEREST_PRECISION);
  }

  /** Interest is the floor of the exact rational interest, except that a fraction within half a
      millionth of the next unit is rounded up to it. */
  lemma InterestAccuracy(exact: nat)
    ensures var i := InterestOf(exact);
            && exact < (i + 1) * YEAR_BPS
            && 2 * INTEREST_PRECISION * (i * YEAR_BPS - exact) <= YEAR_BPS
  {
    RoundingIsNearest(exact * INTEREST_PRECISION);
  }

  lemma InterestMonotone(x: nat, y: nat)
    requires x <= y
    ensures InterestOf(x) <= InterestOf(y)
  {
    var p, q := x * INTEREST_PRECISION / YEAR_BPS, y * INTEREST_PRECISION / YEAR_BPS;
    assert p <= q;
  }

  lemma ProductMono(a: nat, a': nat, b: nat, b': nat)
    requires a <= a' && b <= b'
    ensures 0 <= a * b <= a' * b'
  {
    MulMono(a, a', b);
    MulMono(b, b', a');
  }

  /** More principal, more time or a higher rate never accrues less, when all of it is computable. */
  lemma AccrualMonotone(p: i128, p': i128, t: nat, t': nat, r: i128, r': i128)
    requires 0 <= p <= p' && t <= t' && 0 <= r <= r'
    requires AccrueInterest(p', t', r').Ok?
    ensures AccrueInterest(p, t, r).Ok?
    ensures 0 <= AccrueInterest(p, t, r).value <= AccrueInterest(p', t', r').value
  {
    if p != 0 && t != 0 {
      ProductMono(p, p', t, t');
      ProductMono(p * t, p' * t', r, r');
      InterestMonotone(p * t * r, p' * t' * r');
      hide InterestOf;
      assert p * t * r * INTEREST_PRECISION <= p' * t' * r' * INTEREST_PRECISION;
    }
  }

  /** An amount of interest on a principal, for a time, at a rate: the exact rational interest floored,
      save that a fraction within half a millionth of the next unit is rounded up to it. */
  ghost predicate IsInterest(i: int, principal: int, elapsed: int, rateBps: int) {
    && i >= 0
    && principal * elapsed * rateBps < (i + 1) * 315_360_000_000
    && 2_000_000 * (i * 315_360_000_000 - principal * elapsed * rateBps) <= 315_360_000_000
  }

  /** The products of the interest formula stay within i128. */
  ghost predicate InterestComputable(principal: int, elapsed: int, rateBps: int) {
    InI128(principal * elapsed) && InI128(principal * elapsed * rateBps) && InI128(principal * elapsed * rateBps * 1_000_000)
  }

  /** What accrues, and when it can be computed, exactly, for non-negative principals and rates. */
  lemma AccruedInterest(principal: i128, elapsed: nat, rateBps: i128)
    requires principal >= 0 && rateBps >= 0
    ensures AccrueInterest(principal, elapsed, rateBps).Ok? <==> InterestComputable(principal, elapsed, rateBps)
    ensures AccrueInterest(principal, elapsed, rateBps).Ok? ==>
              IsInterest(AccrueInterest(principal, elapsed, rateBps).value, principal, elapsed, rateBps)
  {
    if principal == 0 || elapsed == 0 {
      assert principal * elapsed == 0;
    } else {
      MulMono(0, principal, elapsed);
      MulMono(0, principal * elapsed, rateBps);
      InterestAccuracy(principal * elapsed * rateBps);
      hide InterestOf;
    }
  }

  // ---------------------------------------------------------------------------
  // Settlement
  // ---------------------------------------------------------------------------

  function SettleAccrual(pos: DebtPosition, now: u64, rateBps: i128): Result<DebtPosition, LendingError> {
    var interest :- AccrueInterest(pos.principal, SatSub(now, pos.lastUpdate), rateBps);
    var principal :- Checked(pos.principal + interest).OkOr(Overflow);
    Ok(DebtPosition(principal, now))
  }

  function EffectiveDebt(pos: DebtPosition, now: u64, rateBps: i128): Result<i128, LendingError> {
    var interest :- AccrueInterest(pos.principal, SatSub(now, pos.lastUpdate), rateBps);
    Checked(pos.principal + interest).OkOr(Overflow)
  }

  function BorrowAmount(pos: DebtPosition, now: u64, amount: i128, rateBps: i128): Result<DebtPosition, LendingError> {
    if amount <= 0 then Err(InvalidAmount)
    else
      var settled :- SettleAccrual(pos, now, rateBps);
      var principal :- Checked(settled.principal + amount).OkOr(Overflow);
      Ok(DebtPosition(principal, now))
  }

  function RepayAmount(pos: DebtPosition, now: u64, amount: i128, rateBps: i128): Result<DebtPosition, LendingError> {
    if amount <= 0 then Err(InvalidAmount)
    else
      var settled :- SettleAccrual(pos, now, rateBps);
      Ok(DebtPosition(if amount >= settled.principal then 0 else settled.principal - amount, now))
  }

  /** Settled position, and the insurance fund after its share of the interest. */
  function SettleAndAccrueInsurance(fund: i128, shareBps: i128, pos: DebtPosition, now: u64, rateBps: i128)
    : Result<(DebtPosition, i128), LendingError>
  {
    var interest :- AccrueInterest(pos.principal, SatSub(now, pos.lastUpdate), rateBps);
    var fund' :-
      if interest > 0 && shareBps > 0 then
        var product :- Checked(interest * shareBps).OkOr(Overflow);
        var share := product / BPS_DENOM;
        if share > 0 then Checked(fund + share).OkOr(Overflow) else Ok(fund)
      else Ok(fund);
    var settled :- SettleAccrual(pos, now, rateBps);
    Ok((settled, fund'))
  }

  /** The debt at `now` is the principal and the interest since the last update, and is computable exactly
      when the interest and the sum are. */
  lemma DebtWithInterest(pos: DebtPosition, now: u64, rateBps: i128)
    requires pos.principal >= 0 && rateBps >= 0
    ensures var elapsed := SatSub(now, pos.lastUpdate);
            && (EffectiveDebt(pos, now, rateBps).Ok? ==>
                  InterestComputable(pos.principal, elapsed, rateBps)
                  && IsInterest(EffectiveDebt(pos, now, rateBps).value - pos.principal, pos.principal, elapsed, rateBps))
            && (InterestComputable(pos.principal, elapsed, rateBps) && EffectiveDebt(pos, now, rateBps).Err? ==>
                  exists i :: IsInterest(i, pos.principal, elapsed, rateBps) && pos.principal + i > I128_MAX)
            && (SettleAccrual(pos, now, rateBps) ==
                  match EffectiveDebt(pos, now, rateBps)
                  case Ok(debt) => Ok(DebtPosition(debt, now))
                  case Err(e) => Err(e))
  {
    AccruedInterest(pos.principal, SatSub(now, pos.lastUpdate), rateBps);
    hide InterestOf, AccrueInterest, IsInterest, InterestComputable;
  }

  /** The insurance fund gains exactly the floored share of the interest, and settlement with insurance
      succeeds exactly when settlement does and the fund's sums fit. */
  lemma InsuranceShareIsFloor(fund: i128, shareBps: i128, pos: DebtPosition, now: u64, rateBps: i128)
    requires pos.principal >= 0 && rateBps >= 0 && shareBps >= 0
    ensures var settled := SettleAccrual(pos, now, rateBps);
            var r := SettleAndAccrueInsurance(fund, shareBps, pos, now, rateBps);
            && (r.Ok? <==>
                  settled.Ok? && InI128((settled.value.principal - pos.principal) * shareBps)
                  && InI128(fund + (settled.value.principal - pos.principal) * shareBps / 10_000))
            && (r.Ok? ==>
                  r.value == (settled.value, fund + (settled.value.principal - pos.principal) * shareBps / 10_000))
  {
    AccruedInterest(pos.principal, SatSub(now, pos.lastUpdate), rateBps);
    hide InterestOf, InterestComputable;
    if SettleAccrual(pos, now, rateBps).Ok? {
      var interest := AccrueInterest(pos.principal, SatSub(now, pos.lastUpdate), rateBps).value;
      assert SettleAccrual(pos, now, rateBps).value.principal - pos.principal == interest >= 0;
      MulMono(0, interest, shareBps);
      FloorDivAtLeast(interest * shareBps, 10_000, 0);
      hide AccrueInterest, IsInterest;
      if interest == 0 || shareBps == 0 {
        assert interest * shareBps == 0;
      }
    }
  }

  /** Settling adds the interest once: a second settlement in the same second changes nothing, so a
      borrow or a repayment after it moves the settled principal by exactly its amount. */
  lemma SettlingIsIdempotent(pos: DebtPosition, now: u64, amount: i128, rateBps: i128)
    requires pos.principal >= 0 && amount > 0
    requires SettleAccrual(pos, now, rateBps).Ok?
    ensures var s := SettleAccrual(pos, now, rateBps).value;
            && s.principal >= pos.principal
            && EffectiveDebt(pos, now, rateBps) == Ok(s.principal)
            && SettleAccrual(s, now, rateBps) == Ok(s)
            && BorrowAmount(pos, now, amount, rateBps) == BorrowAmount(s, now, amount, rateBps)
            && RepayAmount(pos, now, amount, rateBps) == RepayAmount(s, now, amount, rateBps)
            && BorrowAmount(s, now, amount, rateBps)
               == (if s.principal + amount <= I128_MAX then Ok(DebtPosition(s.principal + amount, now)) else Err(Overflow))
            && RepayAmount(s, now, amount, rateBps) == Ok(DebtPosition(SatSub(s.principal, amount), now))
  {
    hide InterestOf;
  }

  /** The fund gains at most the interest, and nothing when nothing accrued. */
  lemma InsuranceShareIsBounded(fund: i128, shareBps: i128, pos: DebtPosition, now: u64, rateBps: i128)
    requires pos.principal >= 0 && shareBps <= BPS_DENOM
    requires SettleAndAccrueInsurance(fund, shareBps, pos, now, rateBps).Ok?
    ensures var (settled, fund') := SettleAndAccrueInsurance(fund, shareBps, pos, now, rateBps).value;
            && 0 <= fund' - fund <= settled.principal - pos.principal
            && settled.lastUpdate == now
  {
    hide InterestOf;
    var interest := AccrueInterest(pos.principal, SatSub(now, pos.lastUpdate), rateBps).value;
    if interest > 0 && shareBps > 0 {
      MulMono(shareBps, BPS_DENOM, interest);
      MulMono(0, shareBps, interest);
    }
  }
}
