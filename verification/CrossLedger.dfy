/** Multi-asset collateral and debt with per-user index lists and per-asset totals
    (stellar-lend/contracts/lending/src/cross_asset.rs). Pause, emergency and authorisation checks
    have passed; a call that returns an error is rolled back by the host. */
module CrossLedger {
  import opened Numeric
  import opened Sequences
  import opened Debt

  const HEALTH_FACTOR_NO_DEBT: i128 := 100_000_000
  const HEALTH_FACTOR_SCALE: i128 := 10_000
  const ORACLE_MAX_AGE_SECS: nat := 3_600

  datatype Address = Address(id: int)
  datatype AssetParams = AssetParams(liquidationThresholdBps: i128, debtCeiling: i128, borrowCap: i128)
  datatype PriceRecord = PriceRecord(price: i128, timestamp: u64)

  /** Balances and debts are keyed by user and asset. */
  datatype Ledger = Ledger(
    collateral: map<(Address, Address), i128>,
    debts: map<(Address, Address), DebtPosition>,
    collateralLists: map<Address, seq<Address>>,
    debtLists: map<Address, seq<Address>>,
    totalDebtAsset: map<Address, i128>,
    totalDebt: i128,
    insuranceFund: i128,
    insuranceShareBps: i128,
    assetParams: map<Address, AssetParams>,
    prices: map<Address, PriceRecord>,
    minBorrow: i128)

  // ---------------------------------------------------------------------------
  // Reads
  // ---------------------------------------------------------------------------

  function Balance(l: Ledger, u: Address, a: Address): i128 {
    if (u, a) in l.collateral then l.collateral[(u, a)] else 0
  }

  function DebtOf(l: Ledger, u: Address, a: Address, now: u64): DebtPosition {
    if (u, a) in l.debts then l.debts[(u, a)] else DebtPosition(0, now)
  }

  function Principal(l: Ledger, u: Address, a: Address): i128 {
    if (u, a) in l.debts then l.debts[(u, a)].principal else 0
  }

  function ListOf(lists: map<Address, seq<Address>>, u: Address): seq<Address> {
    if u in lists then lists[u] else []
  }

  function TotalOf(l: Ledger, a: Address): i128 {
    if a in l.totalDebtAsset then l.totalDebtAsset[a] else 0
  }

  function PriceFor(l: Ledger, a: Address, now: u64): Result<i128, LendingError> {
    if a !in l.prices then Err(PriceFeedNotFound)
    else if now > Min(l.prices[a].timestamp + ORACLE_MAX_AGE_SECS, U64_MAX) then Err(StaleOracleTimestamp)
    else Ok(l.prices[a].price)
  }

  // ---------------------------------------------------------------------------
  // Index lists
  // ---------------------------------------------------------------------------

  function AddTo(lists: map<Address, seq<Address>>, u: Address, a: Address): map<Address, seq<Address>> {
    if a in ListOf(lists, u) then lists else lists[u := ListOf(lists, u) + [a]]
  }

  function RemoveFirst(s: seq<Address>, a: Address): seq<Address> {
    if s == [] then [] else if s[0] == a then s[1..] else [s[0]] + RemoveFirst(s[1..], a)
  }

  function RemoveFrom(lists: map<Address, seq<Address>>, u: Address, a: Address): map<Address, seq<Address>> {
    if a in ListOf(lists, u) then lists[u := RemoveFirst(ListOf(lists, u), a)] else lists
  }

  lemma {:induction false} RemoveFirstRemoves(s: seq<Address>, a: Address)
    requires Distinct(s)
    ensures Distinct(RemoveFirst(s, a))
    ensures forall x :: x in RemoveFirst(s, a) <==> x in s && x != a
  {
    if s == [] {
    } else {
      assert s == [s[0]] + s[1..];
      assert s[0] !in s[1..];
      RemoveFirstRemoves(s[1..], a);
    }
  }

  // ---------------------------------------------------------------------------
  // Health factor
  // ---------------------------------------------------------------------------

  /** One turn of the collateral loop. */
  function AddWeighted(l: Ledger, u: Address, a: Address, now: u64, acc: i128): Result<i128, LendingError> {
    if a !in l.assetParams then Err(AssetNotConfigured)
    else
      var price :- PriceFor(l, a, now);
      var amount := Balance(l, u, a);
      if amount == 0 then Ok(acc)
      else
        var value :- Checked(amount * price).OkOr(Overflow);
        var weighted :- Checked(value * l.assetParams[a].liquidationThresholdBps).OkOr(Overflow);
        Checked(acc + weighted).OkOr(Overflow)
  }

  /** One turn of the debt loop. */
  function AddDebtValue(l: Ledger, u: Address, a: Address, now: u64, acc: i128): Result<i128, LendingError> {
    var price :- PriceFor(l, a, now);
    var debt :- EffectiveDebt(DebtOf(l, u, a, now), now, DEFAULT_APR_BPS);
    if debt == 0 then Ok(acc)
    else
      var value :- Checked(debt * price).OkOr(Overflow);
      Checked(acc + value).OkOr(Overflow)
  }

  /** Collateral weighted by liquidation threshold, accumulated along a list. */
  function WeightedCollateral(l: Ledger, u: Address, list: seq<Address>, now: u64): Result<i128, LendingError> {
    if list == [] then Ok(0)
    else
      var acc :- WeightedCollateral(l, u, list[..|list| - 1], now);
      AddWeighted(l, u, list[|list| - 1], now, acc)
  }

  function DebtValue(l: Ledger, u: Address, list: seq<Address>, now: u64): Result<i128, LendingError> {
    if list == [] then Ok(0)
    else
      var acc :- DebtValue(l, u, list[..|list| - 1], now);
      AddDebtValue(l, u, list[|list| - 1], now, acc)
  }

  function HealthFactor(l: Ledger, u: Address, now: u64): Result<i128, LendingError> {
    if ListOf(l.debtLists, u) == [] then Ok(HEALTH_FACTOR_NO_DEBT)
    else
      var weighted :- WeightedCollateral(l, u, ListOf(l.collateralLists, u), now);
      var debt :- DebtValue(l, u, ListOf(l.debtLists, u), now);
      if debt == 0 then Ok(HEALTH_FACTOR_NO_DEBT) else CheckedDiv(weighted, debt).OkOr(Overflow)
  }

  lemma {:induction false} CollateralFailsForGood(l: Ledger, u: Address, list: seq<Address>, now: u64, k: nat)
    requires k <= |list| && WeightedCollateral(l, u, list[..k], now).Err?
    ensures WeightedCollateral(l, u, list, now) == WeightedCollateral(l, u, list[..k], now)
  {
    if k < |list| {
      assert list[..|list| - 1][..k] == list[..k];
      CollateralFailsForGood(l, u, list[..|list| - 1], now, k);
    } else {
      assert list[..k] == list;
    }
  }

  lemma {:induction false} DebtFailsForGood(l: Ledger, u: Address, list: seq<Address>, now: u64, k: nat)
    requires k <= |list| && DebtValue(l, u, list[..k], now).Err?
    ensures DebtValue(l, u, list, now) == DebtValue(l, u, list[..k], now)
  {
    if k < |list| {
      assert list[..|list| - 1][..k] == list[..k];
      DebtFailsForGood(l, u, list[..|list| - 1], now, k);
    } else {
      assert list[..k] == list;
    }
  }

  // ---------------------------------------------------------------------------
  // Specification of the operations
  // ---------------------------------------------------------------------------

  function Deposited(l: Ledger, u: Address, a: Address, amount: i128): Result<Ledger, LendingError> {
    if amount <= 0 then Err(InvalidAmount)
    else if a !in l.assetParams then Err(AssetNotConfigured)
    else
      var balance :- Checked(Balance(l, u, a) + amount).OkOr(Overflow);
      Ok(l.(collateral := l.collateral[(u, a) := balance],
            collateralLists := AddTo(l.collateralLists, u, a)))
  }

  /** Ledger after the balance is lowered, before the health check. */
  function Lowered(l: Ledger, u: Address, a: Address, balance: i128): Ledger {
    l.(collateral := l.collateral[(u, a) := balance],
       collateralLists := if balance == 0 then RemoveFrom(l.collateralLists, u, a) else l.collateralLists)
  }

  function Withdrawn(l: Ledger, u: Address, a: Address, amount: i128, now: u64): Result<Ledger, LendingError> {
    if amount <= 0 then Err(InvalidAmount)
    else if a !in l.assetParams then Err(AssetNotConfigured)
    else if amount > Balance(l, u, a) then Err(InvalidAmount)
    else
      var l' := Lowered(l, u, a, Balance(l, u, a) - amount);
      var hf :- HealthFactor(l', u, now);
      if hf < HEALTH_FACTOR_SCALE then Err(HealthFactorTooLow) else Ok(l')
  }

  /** The debt errors surface as an overflow. */
  function AsOverflow(r: Result<DebtPosition, LendingError>): Result<DebtPosition, LendingError> {
    match r case Ok(v) => Ok(v) case Err(_) => Err(Overflow)
  }

  /** Ledger after the debt entry is raised, before the health check and the ceilings. */
  function Raised(l: Ledger, u: Address, a: Address, updated: DebtPosition, fund: i128): Ledger {
    l.(debts := l.debts[(u, a) := updated],
       debtLists := AddTo(l.debtLists, u, a),
       insuranceFund := fund)
  }

  /** The ceilings on the asset's total, then both totals. */
  function Totalled(l: Ledger, a: Address, delta: i128): (r: Result<Ledger, LendingError>)
    requires a in l.assetParams
    ensures r.Ok? ==> r.value == l.(totalDebtAsset := r.value.totalDebtAsset, totalDebt := r.value.totalDebt)
  {
    var total :- Checked(TotalOf(l, a) + delta).OkOr(Overflow);
    if total > l.assetParams[a].debtCeiling then Err(DebtCeilingExceeded)
    else if l.assetParams[a].borrowCap != 0 && total > l.assetParams[a].borrowCap then Err(BorrowCapExceeded)
    else
      var protocol :- Checked(l.totalDebt + delta).OkOr(Overflow);
      Ok(l.(totalDebtAsset := l.totalDebtAsset[a := total], totalDebt := protocol))
  }

  function Borrowed(l: Ledger, u: Address, a: Address, amount: i128, now: u64, rate: i128): Result<Ledger, LendingError> {
    if amount <= 0 then Err(InvalidAmount)
    else if a !in l.assetParams then Err(AssetNotConfigured)
    else if amount < l.minBorrow then Err(BelowMinimumBorrow)
    else
      var pos := DebtOf(l, u, a, now);
      var (settled, fund) :- SettleAndAccrueInsurance(l.insuranceFund, l.insuranceShareBps, pos, now, rate);
      var updated :- AsOverflow(BorrowAmount(settled, now, amount, rate));
      var l' := Raised(l, u, a, updated, fund);
      var hf :- HealthFactor(l', u, now);
      if hf < HEALTH_FACTOR_SCALE then Err(HealthFactorTooLow)
      else
        var delta :- Checked(updated.principal - pos.principal).OkOr(Overflow);
        Totalled(l', a, delta)
  }

  function Repaid(l: Ledger, u: Address, a: Address, amount: i128, now: u64, rate: i128): Result<Ledger, LendingError> {
    if amount <= 0 then Err(InvalidAmount)
    else if a !in l.assetParams then Err(AssetNotConfigured)
    else
      var pos := DebtOf(l, u, a, now);
      var (settled, fund) :- SettleAndAccrueInsurance(l.insuranceFund, l.insuranceShareBps, pos, now, rate);
      var updated :- AsOverflow(RepayAmount(settled, now, amount, rate));
      var repaid := match Checked(pos.principal - updated.principal) case Some(v) => v case None => 0;
      Ok(l.(debts := l.debts[(u, a) := updated],
            debtLists := if updated.principal == 0 then RemoveFrom(l.debtLists, u, a) else l.debtLists,
            insuranceFund := fund,
            totalDebtAsset := l.totalDebtAsset[a := Saturate(TotalOf(l, a) - repaid)],
            totalDebt := Saturate(l.totalDebt - repaid)))
  }

  // ---------------------------------------------------------------------------
  // The stored ledger
  // ---------------------------------------------------------------------------

  class LedgerStore {
    var collateral: map<(Address, Address), i128>
    var debts: map<(Address, Address), DebtPosition>
    var collateralLists: map<Address, seq<Address>>
    var debtLists: map<Address, seq<Address>>
    var totalDebtAsset: map<Address, i128>
    var totalDebt: i128
    var insuranceFund: i128
    const insuranceShareBps: i128
    const assetParams: map<Address, AssetParams>
    const prices: map<Address, PriceRecord>
    const minBorrow: i128

    function Contents(): Ledger
      reads this
    {
      Ledger(collateral, debts, collateralLists, debtLists, totalDebtAsset, totalDebt, insuranceFund,
             insuranceShareBps, assetParams, prices, minBorrow)
    }

    constructor (l: Ledger)
      ensures Contents() == l
    {
      collateral, debts, collateralLists, debtLists := l.collateral, l.debts, l.collateralLists, l.debtLists;
      totalDebtAsset, totalDebt, insuranceFund := l.totalDebtAsset, l.totalDebt, l.insuranceFund;
      insuranceShareBps, assetParams, prices, minBorrow := l.insuranceShareBps, l.assetParams, l.prices, l.minBorrow;
    }

    /** The host undoes every write of a call that fails. */
    method Rollback(l: Ledger)
      requires l.insuranceShareBps == insuranceShareBps && l.assetParams == assetParams
      requires l.prices == prices && l.minBorrow == minBorrow
      modifies this
      ensures Contents() == l
    {
      collateral, debts, collateralLists, debtLists := l.collateral, l.debts, l.collateralLists, l.debtLists;
      totalDebtAsset, totalDebt, insuranceFund := l.totalDebtAsset, l.totalDebt, l.insuranceFund;
    }

    /** The collateral loop of `compute_aggregate_health_factor`. */
    method SumCollateral(u: Address, now: u64) returns (r: Result<i128, LendingError>)
      ensures r == WeightedCollateral(Contents(), u, ListOf(collateralLists, u), now)
    {
      hide AddWeighted;
      var l, list := Contents(), ListOf(collateralLists, u);
      var total: i128 := 0;
      assert list[..|list|] == list;
      for i := 0 to |list|
        invariant WeightedCollateral(l, u, list[..i], now) == Ok(total)
      {
        assert list[..i + 1][..i] == list[..i];
        var next := AddWeighted(l, u, list[i], now, total);
        if next.Err? {
          CollateralFailsForGood(l, u, list, now, i + 1);
          return next;
        }
        total := next.value;
      }
      return Ok(total);
    }

    /** The debt loop. */
    method SumDebt(u: Address, now: u64) returns (r: Result<i128, LendingError>)
      ensures r == DebtValue(Contents(), u, ListOf(debtLists, u), now)
    {
      hide AddDebtValue;
      var l, list := Contents(), ListOf(debtLists, u);
      var total: i128 := 0;
      assert list[..|list|] == list;
      for i := 0 to |list|
        invariant DebtValue(l, u, list[..i], now) == Ok(total)
      {
        assert list[..i + 1][..i] == list[..i];
        var next := AddDebtValue(l, u, list[i], now, total);
        if next.Err? {
          DebtFailsForGood(l, u, list, now, i + 1);
          return next;
        }
        total := next.value;
      }
      return Ok(total);
    }

    /** `compute_aggregate_health_factor`. */
    method ComputeHealthFactor(u: Address, now: u64) returns (r: Result<i128, LendingError>)
      ensures r == HealthFactor(Contents(), u, now)
    {
      hide WeightedCollateral, DebtValue;
      if ListOf(debtLists, u) == [] {
        return Ok(HEALTH_FACTOR_NO_DEBT);
      }
      var weighted :- SumCollateral(u, now);
      var debt :- SumDebt(u, now);
      if debt == 0 {
        return Ok(HEALTH_FACTOR_NO_DEBT);
      }
      var hf :- CheckedDiv(weighted, debt).OkOr(Overflow);
      return Ok(hf);
    }

    /** `deposit_collateral_asset_internal`. */
    method Deposit(u: Address, a: Address, amount: i128) returns (r: Result<i128, LendingError>)
      modifies this
      ensures match Deposited(old(Contents()), u, a, amount)
              case Ok(l) => r == Ok(Balance(l, u, a)) && Contents() == l
              case Err(e) => r == Err(e) && Contents() == old(Contents())
    {
      if amount <= 0 { return Err(InvalidAmount); }
      if a !in assetParams { return Err(AssetNotConfigured); }
      var current := Balance(Contents(), u, a);
      var balance :- Checked(current as int + amount).OkOr(Overflow);
      collateral := collateral[(u, a) := balance];
      collateralLists := AddTo(collateralLists, u, a);
      return Ok(balance);
    }

    /** `withdraw_asset_internal`. */
    method Withdraw(u: Address, a: Address, amount: i128, now: u64) returns (r: Result<i128, LendingError>)
      modifies this
      ensures match Withdrawn(old(Contents()), u, a, amount, now)
              case Ok(l) => r == Ok(Balance(l, u, a)) && Contents() == l
              case Err(e) => r == Err(e) && Contents() == old(Contents())
    {
      hide HealthFactor;
      if amount <= 0 { return Err(InvalidAmount); }
      if a !in assetParams { return Err(AssetNotConfigured); }
      var saved := Contents();
      var current := Balance(saved, u, a);
      if amount > current { return Err(InvalidAmount); }
      var balance := current - amount;
      collateral := collateral[(u, a) := balance];
      if balance == 0 {
        collateralLists := RemoveFrom(collateralLists, u, a);
      }
      assert Contents() == Lowered(saved, u, a, balance);
      var hf := ComputeHealthFactor(u, now);
      if hf.Err? {
        Rollback(saved);
        return Err(hf.error);
      }
      if hf.value < HEALTH_FACTOR_SCALE {
        Rollback(saved);
        return Err(HealthFactorTooLow);
      }
      return Ok(balance);
    }

    /** `borrow_asset_internal`. */
    method Borrow(u: Address, a: Address, amount: i128, now: u64, rate: i128) returns (r: Result<i128, LendingError>)
      modifies this
      ensures match Borrowed(old(Contents()), u, a, amount, now, rate)
              case Ok(l) => r == Ok(Principal(l, u, a)) && Contents() == l
              case Err(e) => r == Err(e) && Contents() == old(Contents())
    {
      var saved := Contents();
      r := BorrowBody(u, a, amount, now, rate);
      if r.Err? {
        Rollback(saved);
      }
    }

    method BorrowBody(u: Address, a: Address, amount: i128, now: u64, rate: i128) returns (r: Result<i128, LendingError>)
      modifies this
      ensures match Borrowed(old(Contents()), u, a, amount, now, rate)
              case Ok(l) => r == Ok(Principal(l, u, a)) && Contents() == l
              case Err(e) => r == Err(e)
    {
      hide HealthFactor, SettleAndAccrueInsurance, BorrowAmount, Totalled, AddTo;
      if amount <= 0 { return Err(InvalidAmount); }
      if a !in assetParams { return Err(AssetNotConfigured); }
      if amount < minBorrow { return Err(BelowMinimumBorrow); }
      var position := DebtOf(Contents(), u, a, now);
      var settlement :- SettleAndAccrueInsurance(insuranceFund, insuranceShareBps, position, now, rate);
      insuranceFund := settlement.1;
      var updated :- AsOverflow(BorrowAmount(settlement.0, now, amount, rate));
      debts := debts[(u, a) := updated];
      debtLists := AddTo(debtLists, u, a);
      assert Contents() == Raised(old(Contents()), u, a, updated, settlement.1);
      var hf :- ComputeHealthFactor(u, now);
      if hf < HEALTH_FACTOR_SCALE {
        return Err(HealthFactorTooLow);
      }
      var delta :- Checked(updated.principal as int - position.principal).OkOr(Overflow);
      var _ :- AddToTotals(a, delta);
      return Ok(updated.principal);
    }

    /** The total is stored before the protocol total is checked; the rollback undoes it on overflow. */
    method AddToTotals(a: Address, delta: i128) returns (r: Result<(), LendingError>)
      requires a in assetParams
      modifies this
      ensures match Totalled(old(Contents()), a, delta)
              case Ok(l) => r == Ok(()) && Contents() == l
              case Err(e) => r == Err(e)
    {
      hide Checked, TotalOf;
      var current: int := TotalOf(Contents(), a);
      var total :- Checked(current + delta).OkOr(Overflow);
      if total > assetParams[a].debtCeiling {
        return Err(DebtCeilingExceeded);
      }
      if assetParams[a].borrowCap != 0 && total > assetParams[a].borrowCap {
        return Err(BorrowCapExceeded);
      }
      totalDebtAsset := totalDebtAsset[a := total];
      var protocol :- Checked(totalDebt as int + delta).OkOr(Overflow);
      totalDebt := protocol;
      return Ok(());
    }

    /** `repay_asset_internal`. */
    method Repay(u: Address, a: Address, amount: i128, now: u64, rate: i128) returns (r: Result<i128, LendingError>)
      modifies this
      ensures match Repaid(old(Contents()), u, a, amount, now, rate)
              case Ok(l) => r == Ok(Principal(l, u, a)) && Contents() == l
              case Err(e) => r == Err(e) && Contents() == old(Contents())
    {
      hide SettleAndAccrueInsurance, RepayAmount, RemoveFrom, Saturate, TotalOf, Checked, AsOverflow;
      if amount <= 0 { return Err(InvalidAmount); }
      if a !in assetParams { return Err(AssetNotConfigured); }
      var position := DebtOf(Contents(), u, a, now);
      var settlement :- SettleAndAccrueInsurance(insuranceFund, insuranceShareBps, position, now, rate);
      var updated :- AsOverflow(RepayAmount(settlement.0, now, amount, rate));
      var total := TotalOf(Contents(), a);
      insuranceFund := settlement.1;
      debts := debts[(u, a) := updated];
      if updated.principal == 0 {
        debtLists := RemoveFrom(debtLists, u, a);
      }
      var repaid := match Checked(position.principal - updated.principal) case Some(v) => v case None => 0;
      totalDebtAsset := totalDebtAsset[a := Saturate(total - repaid)];
      totalDebt := Saturate(totalDebt - repaid);
      return Ok(updated.principal);
    }
  }
}
