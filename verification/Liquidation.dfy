/** Liquidation of one position and the bad-debt waterfall (stellar-lend/contracts/lending/src/lib.rs). */
module Liquidation {
  import opened Numeric
  import opened Debt

  const LIQUIDATION_THRESHOLD: i128 := 8_000
  const CLOSE_FACTOR: i128 := 5_000
  const INCENTIVE_BPS: i128 := 1_000

  /** What one liquidation and the waterfall read and write. */
  datatype Book = Book(
    collateral: i128,
    debt: DebtPosition,
    insuranceFund: i128,
    insuranceShareBps: i128,
    badDebt: i128,
    totalDeposits: i128)

  /** `repaid` by the liquidator and the collateral `seized` in return. */
  datatype Receipt = Receipt(repaid: i128, entitled: i128, seized: i128)

  /** `checked_mul_div_floor`. */
  function CheckedMulDivFloor(a: i128, b: i128, c: i128): Result<i128, LendingError> {
    if c == 0 then Err(DivisionByZero)
    else
      var product :- Checked(a * b).OkOr(Overflow);
      CheckedDiv(product, c).OkOr(DivisionByZero)
  }

  /** Any failure of the helper surfaces as an overflow. */
  function MulDivFloor(a: i128, b: i128, c: i128): Result<i128, LendingError> {
    match CheckedMulDivFloor(a, b, c)
    case Ok(v) => Ok(v)
    case Err(_) => Err(Overflow)
  }

  /** Amount drawn and fund left; the checked subtraction of the source cannot fail. */
  function DrawInsurance(fund: i128, amount: i128): (i128, i128) {
    if amount <= 0 then (0, fund) else (Min(amount, fund), Max(fund - amount, 0))
  }

  function Liquidated(b: Book, amount: i128, now: u64): Result<(Book, Receipt), LendingError> {
    var (settled, fund) :- SettleAndAccrueInsurance(b.insuranceFund, b.insuranceShareBps, b.debt, now, DEFAULT_APR_BPS);
    var debt := settled.principal;
    if debt == 0 then Err(PositionHealthy)
    else
      var hf :- MulDivFloor(b.collateral, LIQUIDATION_THRESHOLD, debt);
      if hf >= 10_000 then Err(PositionHealthy)
      else
        var maxRepay :- MulDivFloor(debt, CLOSE_FACTOR, BPS_DENOM);
        var repay := if amount > maxRepay then maxRepay else amount;
        if repay <= 0 then Err(InvalidAmount)
        else
          var entitled :- MulDivFloor(repay, BPS_DENOM + INCENTIVE_BPS, BPS_DENOM);
          var (seized, fund', badDebt) :-
            if entitled > b.collateral then
              var shortfall :- Checked(entitled - b.collateral).OkOr(Overflow);
              var (drawn, left) := DrawInsurance(fund, shortfall);
              var residual :- Checked(shortfall - drawn).OkOr(Overflow);
              var bad :- Checked(b.badDebt + residual).OkOr(Overflow);
              Ok((b.collateral, left, if residual > 0 then bad else b.badDebt))
            else Ok((entitled, fund, b.badDebt));
          var newDebt :- Checked(debt - repay).OkOr(Overflow);
          var newCollateral :- Checked(b.collateral - seized).OkOr(Overflow);
          Ok((b.(collateral := newCollateral, debt := DebtPosition(newDebt, settled.lastUpdate),
                 insuranceFund := fund', badDebt := badDebt),
              Receipt(repay, entitled, seized)))
  }

  /** What each backstop paid. */
  datatype WriteOff = WriteOff(insuranceUsed: i128, reserveUsed: i128, socialized: i128)

  function WrittenOff(b: Book, amount: i128): Result<(Book, WriteOff), LendingError> {
    if amount <= 0 then Err(InvalidAmount)
    else if b.badDebt == 0 then Err(NoBadDebt)
    else if amount > b.badDebt then Err(WriteOffExceedsBadDebt)
    else
      var insuranceUsed := Min(amount, b.insuranceFund);
      var fund :- Checked(b.insuranceFund - insuranceUsed).OkOr(Overflow);
      var afterInsurance :- Checked(amount - insuranceUsed).OkOr(Overflow);
      var reserveUsed := Min(afterInsurance, b.totalDeposits);
      var deposits :- Checked(b.totalDeposits - reserveUsed).OkOr(Overflow);
      var socialized :- Checked(afterInsurance - reserveUsed).OkOr(Overflow);
      if socialized > deposits then Err(Overflow)
      else
        Ok((b.(insuranceFund := fund, totalDeposits := deposits - socialized, badDebt := b.badDebt - amount),
            WriteOff(insuranceUsed, reserveUsed, socialized)))
  }

  // ---------------------------------------------------------------------------
  // The stored book
  // ---------------------------------------------------------------------------

  class BookStore {
    var collateral: i128
    var debt: DebtPosition
    var insuranceFund: i128
    const insuranceShareBps: i128
    var badDebt: i128
    var totalDeposits: i128

    function Contents(): Book
      reads this
    {
      Book(collateral, debt, insuranceFund, insuranceShareBps, badDebt, totalDeposits)
    }

    constructor (b: Book)
      ensures Contents() == b
    {
      collateral, debt, insuranceFund := b.collateral, b.debt, b.insuranceFund;
      insuranceShareBps, badDebt, totalDeposits := b.insuranceShareBps, b.badDebt, b.totalDeposits;
    }

    /** The host undoes every write of a call that fails. */
    method Rollback(b: Book)
      requires b.insuranceShareBps == insuranceShareBps
      modifies this
      ensures Contents() == b
    {
      collateral, debt, insuranceFund := b.collateral, b.debt, b.insuranceFund;
      badDebt, totalDeposits := b.badDebt, b.totalDeposits;
    }

    /** `draw_insurance`. */
    method Draw(amount: i128) returns (drawn: i128)
      modifies this`insuranceFund
      ensures (drawn, insuranceFund) == DrawInsurance(old(insuranceFund), amount)
    {
      if amount <= 0 {
        return 0;
      }
      drawn := Min(amount, insuranceFund);
      insuranceFund := insuranceFund - drawn;
    }

    /** `liquidate`: settlement is persisted before the checks, so a rejection relies on the rollback. */
    method Liquidate(amount: i128, now: u64) returns (r: Result<Receipt, LendingError>)
      modifies this
      ensures match Liquidated(old(Contents()), amount, now)
              case Ok((b, receipt)) => r == Ok(receipt) && Contents() == b
              case Err(e) => r == Err(e) && Contents() == old(Contents())
    {
      hide SettleAndAccrueInsurance, MulDivFloor;
      var saved := Contents();
      r := LiquidateBody(amount, now);
      if r.Err? {
        Rollback(saved);
      }
    }

    method LiquidateBody(amount: i128, now: u64) returns (r: Result<Receipt, LendingError>)
      modifies this
      ensures match Liquidated(old(Contents()), amount, now)
              case Ok((b, receipt)) => r == Ok(receipt) && Contents() == b
              case Err(e) => r == Err(e)
    {
      hide SettleAndAccrueInsurance, MulDivFloor, Min, Max;
      var settlement :- SettleAndAccrueInsurance(insuranceFund, insuranceShareBps, debt, now, DEFAULT_APR_BPS);
      var (settled, fund) := settlement;
      insuranceFund := fund;
      debt := settled;
      var owed := settled.principal;
      if owed == 0 {
        return Err(PositionHealthy);
      }
      var hf :- MulDivFloor(collateral, LIQUIDATION_THRESHOLD, owed);
      if hf >= 10_000 {
        return Err(PositionHealthy);
      }
      var maxRepay :- MulDivFloor(owed, CLOSE_FACTOR, BPS_DENOM);
      var actualRepay := if amount > maxRepay then maxRepay else amount;
      if actualRepay <= 0 {
        return Err(InvalidAmount);
      }
      var entitled :- MulDivFloor(actualRepay, BPS_DENOM + INCENTIVE_BPS, BPS_DENOM);
      var finalSeized := entitled;
      if entitled > collateral {
        var shortfall :- Checked(entitled - collateral).OkOr(Overflow);
        var drawn := Draw(shortfall);
        var residual :- Checked(shortfall as int - drawn).OkOr(Overflow);
        var newBadDebt :- Checked(badDebt as int + residual).OkOr(Overflow);
        if residual > 0 {
          badDebt := newBadDebt;
        }
        finalSeized := collateral;
      }
      var newDebt :- Checked(owed - actualRepay).OkOr(Overflow);
      var newCol :- Checked(collateral - finalSeized).OkOr(Overflow);
      debt := DebtPosition(newDebt, settled.lastUpdate);
      collateral := newCol;
      return Ok(Receipt(actualRepay, entitled, finalSeized));
    }

    /** `write_off_bad_debt`. The checked subtractions from the two funds cannot fail. */
    method WriteOffBadDebt(amount: i128) returns (r: Result<WriteOff, LendingError>)
      modifies this
      ensures match WrittenOff(old(Contents()), amount)
              case Ok((b, w)) => r == Ok(w) && Contents() == b
              case Err(e) => r == Err(e) && Contents() == old(Contents())
    {
      if amount <= 0 { return Err(InvalidAmount); }
      if badDebt == 0 { return Err(NoBadDebt); }
      if amount > badDebt { return Err(WriteOffExceedsBadDebt); }
      var insuranceUsed := Min(amount, insuranceFund);
      var newInsurance := insuranceFund - insuranceUsed;
      var remaining :- Checked(amount - insuranceUsed).OkOr(Overflow);
      var reserveUsed := Min(remaining, totalDeposits);
      var newDeposits := totalDeposits - reserveUsed;
      remaining :- Checked(remaining - reserveUsed).OkOr(Overflow);
      var socialized := remaining;
      if socialized > newDeposits { return Err(Overflow); }
      insuranceFund := newInsurance;
      totalDeposits := newDeposits - socialized;
      badDebt := badDebt - amount;
      return Ok(WriteOff(insuranceUsed, reserveUsed, socialized));
    }
  }

  // ---------------------------------------------------------------------------
  // One liquidation
  // ---------------------------------------------------------------------------

  ghost predicate Sound(b: Book) {
    && b.collateral >= 0 && b.debt.principal >= 0 && b.insuranceFund >= 0 && b.badDebt >= 0
    && b.totalDeposits >= 0 && 0 <= b.insuranceShareBps <= BPS_DENOM
  }

  function SettledDebt(b: Book, now: u64): Result<i128, LendingError> {
    EffectiveDebt(b.debt, now, DEFAULT_APR_BPS)
  }

  lemma MulDivIsFloor(a: i128, b: i128, c: i128)
    requires a >= 0 && b >= 0 && c > 0 && MulDivFloor(a, b, c).Ok?
    ensures MulDivFloor(a, b, c).value == a * b / c
  {
    MulMono(0, a, b);
  }

  /** What a successful liquidation does to a sound book, in exact terms. */
  lemma LiquidationFacts(b: Book, amount: i128, now: u64)
    requires Sound(b) && Liquidated(b, amount, now).Ok?
    ensures SettledDebt(b, now).Ok?
    ensures var (b', rc) := Liquidated(b, amount, now).value;
            var d := SettledDebt(b, now).value;
            && 4 * b.collateral < 5 * d
            && 0 < rc.repaid == Min(amount, d / 2)
            && rc.entitled == rc.repaid * 11_000 / 10_000
            && rc.seized == Min(rc.entitled, b.collateral)
            && b'.debt == DebtPosition(d - rc.repaid, now)
            && b'.collateral == b.collateral - rc.seized
            && Sound(b') && b'.totalDeposits == b.totalDeposits && b'.insuranceShareBps == b.insuranceShareBps
  {
    var (settled, fund) := SettleAndAccrueInsurance(b.insuranceFund, b.insuranceShareBps, b.debt, now, DEFAULT_APR_BPS).value;
    InsuranceShareIsBounded(b.insuranceFund, b.insuranceShareBps, b.debt, now, DEFAULT_APR_BPS);
    SettlingIsIdempotent(b.debt, now, 1, DEFAULT_APR_BPS);
    hide SettleAndAccrueInsurance, EffectiveDebt, SettleAccrual, BorrowAmount, RepayAmount, Liquidated;
    FactsAfterSettlement(b, settled, fund, amount, now);
  }

  lemma FactsAfterSettlement(b: Book, settled: DebtPosition, fund: i128, amount: i128, now: u64)
    requires Sound(b) && settled.principal >= 0 && fund >= 0 && settled.lastUpdate == now
    requires SettleAndAccrueInsurance(b.insuranceFund, b.insuranceShareBps, b.debt, now, DEFAULT_APR_BPS) == Ok((settled, fund))
    requires Liquidated(b, amount, now).Ok?
    ensures var (b', rc) := Liquidated(b, amount, now).value;
            var d := settled.principal;
            && 4 * b.collateral < 5 * d
            && 0 < rc.repaid == Min(amount, d / 2)
            && rc.entitled == rc.repaid * 11_000 / 10_000
            && rc.seized == Min(rc.entitled, b.collateral)
            && b'.debt == DebtPosition(d - rc.repaid, now)
            && b'.collateral == b.collateral - rc.seized
            && Sound(b') && b'.totalDeposits == b.totalDeposits && b'.insuranceShareBps == b.insuranceShareBps
  {
    hide SettleAndAccrueInsurance, MulDivFloor;
    var d := settled.principal;
    var rc := Liquidated(b, amount, now).value.1;
    MulDivIsFloor(b.collateral, LIQUIDATION_THRESHOLD, d);
    MulDivIsFloor(d, CLOSE_FACTOR, BPS_DENOM);
    MulDivIsFloor(rc.repaid, BPS_DENOM + INCENTIVE_BPS, BPS_DENOM);
    HealthQuotient(b.collateral, d);
  }

  lemma MulDivSucceedsIff(a: i128, b: i128, c: i128)
    requires a >= 0 && b >= 0 && c > 0
    ensures MulDivFloor(a, b, c).Ok? <==> InI128(a * b)
    ensures MulDivFloor(a, b, c).Ok? ==> MulDivFloor(a, b, c).value == a * b / c >= 0
  {
    MulMono(0, a, b);
    MulMono(1, c, a * b + 1);
    FloorDivAtMost(a * b, c, a * b);
    FloorDivAtLeast(a * b, c, 0);
  }

  /** What a liquidation repays of a debt, and what that entitles to. */
  function Repayable(debt: int, amount: int): int {
    Min(amount, debt / 2)
  }

  function Entitled(debt: int, amount: int): int {
    Repayable(debt, amount) * 11_000 / 10_000
  }

  /** The products of a liquidation, and the bad debt it books, stay within i128. */
  ghost predicate LiquidationFits(b: Book, debt: int, fund: int, amount: int) {
    && InI128(b.collateral * 8_000) && InI128(debt * 5_000) && InI128(Repayable(debt, amount) * 11_000)
    && InI128(b.badDebt + Max(Entitled(debt, amount) - b.collateral - fund, 0))
  }

  /** Which liquidations of a sound book succeed, exactly: those of a settled debt above 4/5 of which there is
      no collateral, that repay something. */
  lemma LiquidationSucceedsIff(b: Book, amount: i128, now: u64)
    requires Sound(b)
    ensures var settlement := SettleAndAccrueInsurance(b.insuranceFund, b.insuranceShareBps, b.debt, now, DEFAULT_APR_BPS);
            Liquidated(b, amount, now).Ok? <==>
              && settlement.Ok?
              && var (settled, fund) := settlement.value;
                 && 4 * b.collateral < 5 * settled.principal
                 && Repayable(settled.principal, amount) > 0
                 && LiquidationFits(b, settled.principal, fund, amount)
  {
    var settlement := SettleAndAccrueInsurance(b.insuranceFund, b.insuranceShareBps, b.debt, now, DEFAULT_APR_BPS);
    if settlement.Ok? {
      var (settled, fund) := settlement.value;
      InsuranceShareIsBounded(b.insuranceFund, b.insuranceShareBps, b.debt, now, DEFAULT_APR_BPS);
      SettlingIsIdempotentHere(b.debt, now, settled, b.insuranceFund, b.insuranceShareBps);
      hide SettleAndAccrueInsurance;
      LiquidationStages(b, settled, fund, amount, now);
    }
  }

  lemma SettlingIsIdempotentHere(pos: DebtPosition, now: u64, settled: DebtPosition, fund: i128, shareBps: i128)
    requires pos.principal >= 0
    requires var r := SettleAndAccrueInsurance(fund, shareBps, pos, now, DEFAULT_APR_BPS); r.Ok? && r.value.0 == settled
    ensures settled.principal >= 0
  {
    SettlingIsIdempotent(pos, now, 1, DEFAULT_APR_BPS);
    hide AccrueInterest;
  }

  lemma LiquidationStages(b: Book, settled: DebtPosition, fund: i128, amount: i128, now: u64)
    requires Sound(b) && settled.principal >= 0 && fund >= 0
    requires SettleAndAccrueInsurance(b.insuranceFund, b.insuranceShareBps, b.debt, now, DEFAULT_APR_BPS) == Ok((settled, fund))
    ensures Liquidated(b, amount, now).Ok? <==>
              && 4 * b.collateral < 5 * settled.principal
              && Repayable(settled.principal, amount) > 0
              && LiquidationFits(b, settled.principal, fund, amount)
  {
    hide SettleAndAccrueInsurance, MulDivFloor;
    var d := settled.principal;
    if d > 0 {
      MulDivSucceedsIff(b.collateral, 8_000, d);
      MulDivSucceedsIff(d, 5_000, 10_000);
      HealthQuotient(b.collateral, d);
      if Repayable(d, amount) > 0 {
        MulDivSucceedsIff(Repayable(d, amount), 11_000, 10_000);
      }
    }
  }

  lemma HealthQuotient(c: nat, d: nat)
    requires d > 0
    ensures c * 8_000 / d >= 10_000 <==> 4 * c >= 5 * d
  {
    FloorDiv(c * 8_000, d);
    if 4 * c >= 5 * d {
      FloorDivAtLeast(c * 8_000, d, 10_000);
    } else {
      FloorDivAtMost(c * 8_000, d, 9_999);
    }
  }

  /** Every unit the liquidator is entitled to comes from the collateral, the insurance fund (which also
      gains its share of the interest settled) or new bad debt. */
  lemma LiquidationConserves(b: Book, amount: i128, now: u64)
    requires Sound(b) && Liquidated(b, amount, now).Ok?
    ensures SettleAndAccrueInsurance(b.insuranceFund, b.insuranceShareBps, b.debt, now, DEFAULT_APR_BPS).Ok?
    ensures var (b', rc) := Liquidated(b, amount, now).value;
            var fund := SettleAndAccrueInsurance(b.insuranceFund, b.insuranceShareBps, b.debt, now, DEFAULT_APR_BPS).value.1;
            && rc.entitled == (b.collateral - b'.collateral) + (fund - b'.insuranceFund) + (b'.badDebt - b.badDebt)
            && (b'.badDebt > b.badDebt ==> b'.insuranceFund == 0 && b'.collateral == 0)
            && (rc.entitled <= b.collateral ==> b'.badDebt == b.badDebt && b'.insuranceFund == fund)
  {
    InsuranceShareIsBounded(b.insuranceFund, b.insuranceShareBps, b.debt, now, DEFAULT_APR_BPS);
    hide SettleAndAccrueInsurance, MulDivFloor;
  }

  /** A sound position is open to liquidation exactly when 4 collateral < 5 debt. */
  lemma LiquidatableIff(b: Book, amount: i128, now: u64)
    requires Sound(b) && SettledDebt(b, now).Ok?
    ensures 4 * b.collateral >= 5 * SettledDebt(b, now).value ==>
              Liquidated(b, amount, now) == Err(PositionHealthy) || Liquidated(b, amount, now) == Err(Overflow)
    ensures 4 * b.collateral < 5 * SettledDebt(b, now).value ==> Liquidated(b, amount, now) != Err(PositionHealthy)
  {
    SettlingIsIdempotent(b.debt, now, 1, DEFAULT_APR_BPS);
    var d: int := SettledDebt(b, now).value;
    OnlyOverflowInSettling(b, now);
    hide SettleAndAccrueInsurance, EffectiveDebt, SettleAccrual, BorrowAmount, RepayAmount;
    if d > 0 {
      FloorDiv(b.collateral * LIQUIDATION_THRESHOLD, d);
      if 4 * b.collateral >= 5 * d {
        FloorDivAtLeast(b.collateral * LIQUIDATION_THRESHOLD, d, 10_000);
      } else {
        FloorDivAtMost(b.collateral * LIQUIDATION_THRESHOLD, d, 9_999);
      }
    }
  }

  lemma OnlyOverflowInSettling(b: Book, now: u64)
    requires SettledDebt(b, now).Ok?
    ensures match SettleAndAccrueInsurance(b.insuranceFund, b.insuranceShareBps, b.debt, now, DEFAULT_APR_BPS)
            case Ok((s, _)) => s.principal == SettledDebt(b, now).value
            case Err(e) => e == Overflow
  {
    hide InterestOf;
  }

  /** Ten units of collateral for every eleven of debt. */
  ghost predicate Covered(b: Book, now: u64) {
    SettledDebt(b, now).Ok? && 10 * b.collateral >= 11 * SettledDebt(b, now).value
  }

  /** At one timestamp, a covered position stays covered, its collateral per unit of debt does not fall,
      and no shortfall arises. Without cover, a shortfall means 20 collateral < 11 debt. Each success
      lowers the debt, but never by more than half, so the last unit of debt cannot be liquidated. */
  lemma LiquidationDynamics(b: Book, amount: i128, now: u64)
    requires Sound(b) && Liquidated(b, amount, now).Ok?
    ensures SettledDebt(b, now).Ok?
    ensures var (b', rc) := Liquidated(b, amount, now).value;
            var d := SettledDebt(b, now).value;
            && SettledDebt(b', now) == Ok(b'.debt.principal)
            && 0 < b'.debt.principal < d && 2 * b'.debt.principal >= d
            && (rc.entitled > b.collateral ==> 20 * b.collateral < 11 * d)
            && (Covered(b, now) ==>
                  && Covered(b', now)
                  && rc.seized == rc.entitled && b'.badDebt == b.badDebt
                  && b'.collateral * d >= b.collateral * b'.debt.principal)
  {
    hide Liquidated, SettleAndAccrueInsurance, InterestOf;
    LiquidationFacts(b, amount, now);
    LiquidationConserves(b, amount, now);
    var (b', rc) := Liquidated(b, amount, now).value;
    var d: int := SettledDebt(b, now).value;
    assert EffectiveDebt(b'.debt, now, DEFAULT_APR_BPS) == Ok(b'.debt.principal);
    hide EffectiveDebt, SettledDebt;
    if 10 * b.collateral >= 11 * d {
      RatioKept(b.collateral, d, rc.repaid, rc.seized);
    }
  }

  /** Seizing at most 1.1 per unit repaid from a position with at least 1.1 per unit owed. */
  lemma RatioKept(c: nat, d: nat, r: nat, s: nat)
    requires 10 * s <= 11 * r && 10 * c >= 11 * d && r <= d && s <= c
    ensures (c - s) * d >= c * (d - r)
  {
    MulMono(10 * s, 11 * r, d);
    MulMono(11 * d, 10 * c, r);
    assert 11 * r * d == 11 * d * r;
    assert (c - s) * d == c * d - s * d;
    assert c * (d - r) == c * d - c * r;
  }

  // ---------------------------------------------------------------------------
  // Sequences of liquidations
  // ---------------------------------------------------------------------------

  /** Book after attempts with the given amounts at one timestamp; a rejected attempt changes nothing. */
  function LiquidateAll(b: Book, amounts: seq<i128>, now: u64): Book {
    if amounts == [] then b
    else
      var q := LiquidateAll(b, amounts[..|amounts| - 1], now);
      match Liquidated(q, amounts[|amounts| - 1], now)
      case Ok((q', _)) => q'
      case Err(_) => q
  }

  lemma RatioIsTransitive(c: nat, d: nat, c1: nat, d1: nat, c2: nat, d2: nat)
    requires d1 > 0 && c1 * d >= c * d1 && c2 * d1 >= c1 * d2
    ensures c2 * d >= c * d2
  {
    MulMono(c1 * d2, c2 * d1, d);
    MulMono(c * d1, c1 * d, d2);
    assert c1 * d2 * d == c1 * d * d2;
    assert c2 * d1 * d == c2 * d * d1;
    assert c * d1 * d2 == c * d2 * d1;
    MulCancelLe(c * d2, c2 * d, d1);
  }

  /** Any sequence of liquidations at one timestamp keeps a covered position covered, never lowers its
      exact collateral ratio, and books no bad debt. */
  lemma {:induction false} CoveredPositionsStayCovered(b: Book, amounts: seq<i128>, now: u64)
    requires Sound(b) && Covered(b, now)
    ensures var e := LiquidateAll(b, amounts, now);
            && Sound(e) && Covered(e, now) && e.badDebt == b.badDebt
            && SettledDebt(e, now).value <= SettledDebt(b, now).value
            && (SettledDebt(b, now).value > 0 ==> SettledDebt(e, now).value > 0)
            && e.collateral * SettledDebt(b, now).value >= b.collateral * SettledDebt(e, now).value
  {
    hide Liquidated, SettledDebt;
    if amounts == [] {
    } else {
      var front, x := amounts[..|amounts| - 1], amounts[|amounts| - 1];
      CoveredPositionsStayCovered(b, front, now);
      var q := LiquidateAll(b, front, now);
      if Liquidated(q, x, now).Ok? {
        LiquidationDynamics(q, x, now);
        LiquidationFacts(q, x, now);
        var e := LiquidateAll(b, amounts, now);
        RatioIsTransitive(b.collateral, SettledDebt(b, now).value, q.collateral, SettledDebt(q, now).value,
                          e.collateral, SettledDebt(e, now).value);
      }
    }
  }

  // ---------------------------------------------------------------------------
  // The waterfall
  // ---------------------------------------------------------------------------

  /** A write-off succeeds exactly when the insurance fund and the deposits together cover it. It then
      drains insurance before deposits and conserves the total; the third, socialised tier the comments
      describe never pays anything. */
  lemma WriteOffWaterfall(b: Book, amount: i128)
    requires Sound(b)
    ensures WrittenOff(b, amount).Ok? <==>
            0 < amount <= b.badDebt && amount <= b.insuranceFund + b.totalDeposits
    ensures WrittenOff(b, amount).Ok? ==>
              var (b', w) := WrittenOff(b, amount).value;
              && Sound(b')
              && w.socialized == 0
              && w.insuranceUsed + w.reserveUsed == amount == b.badDebt - b'.badDebt
              && b.insuranceFund - b'.insuranceFund == w.insuranceUsed
              && b.totalDeposits - b'.totalDeposits == w.reserveUsed
              && (w.reserveUsed > 0 ==> b'.insuranceFund == 0)
  {
  }
}
