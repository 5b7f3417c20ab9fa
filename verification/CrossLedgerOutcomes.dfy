/** Which calls of the multi-asset ledger succeed, exactly, and what else they leave behind
    (stellar-lend/contracts/lending/src/cross_asset.rs). */
module CrossLedgerOutcomes {
  import opened Numeric
  import opened Debt
  import opened MapSum
  import opened CrossLedger
  import opened CrossLedgerRuns

  // ---------------------------------------------------------------------------
  // The health factor
  // ---------------------------------------------------------------------------

  /** A price is on record and at most an hour old. */
  ghost predicate Priced(l: Ledger, a: Address, now: u64) {
    a in l.prices && now <= l.prices[a].timestamp + 3_600
  }

  lemma PriceIff(l: Ledger, a: Address, now: u64)
    ensures PriceFor(l, a, now).Ok? <==> Priced(l, a, now)
    ensures PriceFor(l, a, now).Ok? ==> PriceFor(l, a, now).value == l.prices[a].price
  {
  }

  ghost predicate PositivePrices(l: Ledger) {
    forall a :: a in l.prices ==> l.prices[a].price > 0
  }

  /** What configuration through `set_price` and `set_asset_params` guarantees. */
  ghost predicate Configured(l: Ledger) {
    && PositivePrices(l)
    && (forall a :: a in l.assetParams ==> l.assetParams[a].liquidationThresholdBps >= 0)
  }

  ghost predicate CollateralFits(l: Ledger, u: Address, a: Address, now: u64) {
    && a in l.assetParams && Priced(l, a, now)
    && InI128(Balance(l, u, a) * l.prices[a].price) && InI128(CollateralTerm(l, u, a))
  }

  ghost predicate DebtFits(l: Ledger, u: Address, a: Address, now: u64) {
    && Priced(l, a, now)
    && EffectiveDebt(DebtOf(l, u, a, now), now, DEFAULT_APR_BPS).Ok? && InI128(DebtTerm(l, u, a, now))
  }

  lemma CollateralTurnIff(l: Ledger, u: Address, a: Address, now: u64, acc: i128)
    requires Balance(l, u, a) >= 0 && Configured(l) && acc >= 0
    ensures CollateralTerm(l, u, a) >= 0
    ensures AddWeighted(l, u, a, now, acc).Ok? <==> CollateralFits(l, u, a, now) && acc + CollateralTerm(l, u, a) <= I128_MAX
    ensures AddWeighted(l, u, a, now, acc).Ok? ==> AddWeighted(l, u, a, now, acc).value == acc + CollateralTerm(l, u, a)
  {
    PriceIff(l, a, now);
    hide PriceFor;
    if a in l.assetParams && a in l.prices {
      MulMono(0, Balance(l, u, a), l.prices[a].price);
      MulMono(0, Balance(l, u, a) * l.prices[a].price, l.assetParams[a].liquidationThresholdBps);
    }
  }

  lemma DebtTurnIff(l: Ledger, u: Address, a: Address, now: u64, acc: i128)
    requires Principal(l, u, a) >= 0 && Configured(l) && acc >= 0
    ensures DebtTerm(l, u, a, now) >= 0
    ensures AddDebtValue(l, u, a, now, acc).Ok? <==> DebtFits(l, u, a, now) && acc + DebtTerm(l, u, a, now) <= I128_MAX
    ensures AddDebtValue(l, u, a, now, acc).Ok? ==> AddDebtValue(l, u, a, now, acc).value == acc + DebtTerm(l, u, a, now)
  {
    PriceIff(l, a, now);
    DebtWithInterest(DebtOf(l, u, a, now), now, DEFAULT_APR_BPS);
    hide PriceFor, EffectiveDebt, InterestComputable;
    var debt := EffectiveDebt(DebtOf(l, u, a, now), now, DEFAULT_APR_BPS);
    if a in l.prices && debt.Ok? {
      MulMono(0, debt.value, l.prices[a].price);
    }
  }

  lemma {:induction false} CollateralLoopIff(l: Ledger, u: Address, list: seq<Address>, now: u64, m: map<Address, int>)
    requires Configured(l) && forall a :: a in list ==> Balance(l, u, a) >= 0
    requires forall a :: a in list ==> Get(m, a) == CollateralTerm(l, u, a)
    ensures SumAlong(list, m) >= 0
    ensures WeightedCollateral(l, u, list, now).Ok? <==>
            (forall a :: a in list ==> CollateralFits(l, u, a, now)) && SumAlong(list, m) <= I128_MAX
    ensures WeightedCollateral(l, u, list, now).Ok? ==> WeightedCollateral(l, u, list, now).value == SumAlong(list, m)
  {
    hide AddWeighted, CollateralFits, CollateralTerm, Configured;
    if list == [] {
    } else {
      var front, a := list[..|list| - 1], list[|list| - 1];
      assert list == front + [a];
      CollateralLoopIff(l, u, front, now, m);
      CollateralTurnIff(l, u, a, now, 0);
      if WeightedCollateral(l, u, front, now).Ok? {
        CollateralTurnIff(l, u, a, now, WeightedCollateral(l, u, front, now).value);
      }
    }
  }

  lemma {:induction false} DebtLoopIff(l: Ledger, u: Address, list: seq<Address>, now: u64, m: map<Address, int>)
    requires Configured(l) && forall a :: a in list ==> Principal(l, u, a) >= 0
    requires forall a :: a in list ==> Get(m, a) == DebtTerm(l, u, a, now)
    ensures SumAlong(list, m) >= 0
    ensures DebtValue(l, u, list, now).Ok? <==>
            (forall a :: a in list ==> DebtFits(l, u, a, now)) && SumAlong(list, m) <= I128_MAX
    ensures DebtValue(l, u, list, now).Ok? ==> DebtValue(l, u, list, now).value == SumAlong(list, m)
  {
    hide AddDebtValue, DebtFits, DebtTerm, Configured;
    if list == [] {
    } else {
      var front, a := list[..|list| - 1], list[|list| - 1];
      assert list == front + [a];
      DebtLoopIff(l, u, front, now, m);
      DebtTurnIff(l, u, a, now, 0);
      if DebtValue(l, u, front, now).Ok? {
        DebtTurnIff(l, u, a, now, DebtValue(l, u, front, now).value);
      }
    }
  }

  /** When the health factor is computable, exactly: there is nothing owed, or every asset listed is
      configured and freshly priced and neither total leaves i128. */
  lemma HealthFactorIff(l: Ledger, u: Address, now: u64)
    requires NonNegative(l) && Configured(l)
    ensures var held, owed := ListOf(l.collateralLists, u), ListOf(l.debtLists, u);
            HealthFactor(l, u, now).Ok? <==>
              || owed == []
              || (&& (forall a :: a in held ==> CollateralFits(l, u, a, now)) && ExactCollateral(l, u, held) <= I128_MAX
                  && (forall a :: a in owed ==> DebtFits(l, u, a, now)) && ExactDebt(l, u, now, owed) <= I128_MAX)
  {
    var held, owed := ListOf(l.collateralLists, u), ListOf(l.debtLists, u);
    assert forall a :: a in held ==> Balance(l, u, a) >= 0;
    assert forall a :: a in owed ==> Principal(l, u, a) >= 0;
    hide CollateralFits, DebtFits, CollateralTerm, DebtTerm, Configured, NonNegative, WeightedCollateral, DebtValue, TruncDiv;
    CollateralLoopIff(l, u, held, now, CollateralTerms(l, u, set a | a in held));
    DebtLoopIff(l, u, owed, now, DebtTerms(l, u, now, set a | a in owed));
    HealthFactorStages(l, u, now);
    hide SumAlong, HealthFactor;
  }

  lemma HealthFactorStages(l: Ledger, u: Address, now: u64)
    requires var weighted := WeightedCollateral(l, u, ListOf(l.collateralLists, u), now);
             weighted.Ok? ==> weighted.value >= 0
    requires var debt := DebtValue(l, u, ListOf(l.debtLists, u), now);
             debt.Ok? ==> debt.value >= 0
    ensures HealthFactor(l, u, now).Ok? <==>
            || ListOf(l.debtLists, u) == []
            || (&& WeightedCollateral(l, u, ListOf(l.collateralLists, u), now).Ok?
                && DebtValue(l, u, ListOf(l.debtLists, u), now).Ok?)
  {
    hide WeightedCollateral, DebtValue;
    var weighted := WeightedCollateral(l, u, ListOf(l.collateralLists, u), now);
    var debt := DebtValue(l, u, ListOf(l.debtLists, u), now);
    if weighted.Ok? && debt.Ok? {
      RatioFits(weighted.value, debt.value);
    }
    hide CheckedDiv;
  }

  lemma RatioFits(a: i128, b: i128)
    requires a >= 0 && b >= 0
    ensures b > 0 ==> CheckedDiv(a, b).Some?
  {
    if b > 0 {
      MulMono(1, b, a + 1);
      FloorDivAtMost(a, b, a);
      FloorDivAtLeast(a, b, 0);
    }
  }

  // ---------------------------------------------------------------------------
  // The four operations
  // ---------------------------------------------------------------------------

  ghost predicate Healthy(l: Ledger, u: Address, now: u64) {
    HealthFactor(l, u, now).Ok? && HealthFactor(l, u, now).value >= 10_000
  }

  /** A deposit succeeds exactly for a positive amount of a configured asset that fits, and touches only the
      user's balance and list. */
  lemma DepositIff(l: Ledger, u: Address, a: Address, amount: i128)
    ensures Deposited(l, u, a, amount).Ok? <==>
            amount > 0 && a in l.assetParams && Balance(l, u, a) + amount <= I128_MAX
    ensures Deposited(l, u, a, amount).Ok? ==>
              var r := Deposited(l, u, a, amount).value;
              r == l.(collateral := r.collateral, collateralLists := r.collateralLists)
  {
  }

  /** A withdrawal succeeds exactly for a positive amount that is there and leaves the user healthy. */
  lemma WithdrawIff(l: Ledger, u: Address, a: Address, amount: i128, now: u64)
    ensures Withdrawn(l, u, a, amount, now).Ok? <==>
            && amount > 0 && a in l.assetParams && amount <= Balance(l, u, a)
            && Healthy(Lowered(l, u, a, Balance(l, u, a) - amount), u, now)
    ensures Withdrawn(l, u, a, amount, now).Ok? ==>
              var r := Withdrawn(l, u, a, amount, now).value;
              r == l.(collateral := r.collateral, collateralLists := r.collateralLists)
  {
    hide HealthFactor;
  }

  /** The ledger whose health a borrow is judged by: the debt settled and raised, the totals not yet. */
  function Indebted(l: Ledger, u: Address, a: Address, principal: i128, now: u64, fund: i128): Ledger {
    l.(debts := l.debts[(u, a) := DebtPosition(principal, now)],
       debtLists := AddTo(l.debtLists, u, a), insuranceFund := fund)
  }

  /** The ceilings leave room for a rise of the asset's total, and both totals for the sum. */
  ghost predicate TotalsFit(l: Ledger, a: Address, rise: int)
    requires a in l.assetParams
  {
    && TotalOf(l, a) + rise <= l.assetParams[a].debtCeiling
    && (l.assetParams[a].borrowCap != 0 ==> TotalOf(l, a) + rise <= l.assetParams[a].borrowCap)
    && InI128(TotalOf(l, a) + rise) && InI128(l.totalDebt + rise)
  }

  lemma TotalledIff(l: Ledger, a: Address, rise: i128)
    requires a in l.assetParams
    ensures Totalled(l, a, rise).Ok? <==> TotalsFit(l, a, rise)
    ensures Totalled(l, a, rise).Ok? ==>
              var r := Totalled(l, a, rise).value;
              && r.totalDebt == l.totalDebt + rise && TotalOf(r, a) == TotalOf(l, a) + rise
              && r == l.(totalDebtAsset := r.totalDebtAsset, totalDebt := r.totalDebt)
  {
  }

  /** What a borrow needs, check by check. */
  ghost predicate MayBorrow(l: Ledger, u: Address, a: Address, amount: i128, now: u64, rate: i128) {
    && amount > 0 && amount >= l.minBorrow && a in l.assetParams
    && match SettleAndAccrueInsurance(l.insuranceFund, l.insuranceShareBps, DebtOf(l, u, a, now), now, rate)
       case Err(_) => false
       case Ok((settled, fund)) =>
         && settled.principal + amount <= I128_MAX
         && MayOwe(l, u, a, settled.principal + amount, now, fund)
  }

  /** The user stays healthy with that principal, and the totals have room for its rise. */
  ghost predicate MayOwe(l: Ledger, u: Address, a: Address, principal: int, now: u64, fund: i128)
    requires a in l.assetParams
  {
    && InI128(principal)
    && Healthy(Indebted(l, u, a, principal, now, fund), u, now)
    && TotalsFit(l, a, principal - Principal(l, u, a))
  }

  /** A borrow succeeds exactly for an amount of a configured asset not below the minimum, when the debt can
      be settled, the user stays healthy with it, and the asset's total stays within ceiling and cap. */
  lemma BorrowIff(l: Ledger, u: Address, a: Address, amount: i128, now: u64, rate: i128)
    requires Principal(l, u, a) >= 0
    ensures Borrowed(l, u, a, amount, now, rate).Ok? <==> MayBorrow(l, u, a, amount, now, rate)
  {
    hide Borrowed, MayBorrow;
    if Borrowed(l, u, a, amount, now, rate).Ok? {
      BorrowNeeds(l, u, a, amount, now, rate);
    }
    if MayBorrow(l, u, a, amount, now, rate) {
      BorrowGoesThrough(l, u, a, amount, now, rate);
    }
  }

  lemma BorrowNeeds(l: Ledger, u: Address, a: Address, amount: i128, now: u64, rate: i128)
    requires Principal(l, u, a) >= 0 && Borrowed(l, u, a, amount, now, rate).Ok?
    ensures MayBorrow(l, u, a, amount, now, rate)
  {
    hide SettleAndAccrueInsurance, BorrowAmount, HealthFactor, AddTo, Totalled, TotalsFit;
    assert amount >= l.minBorrow;
    hide Borrowed;
    var settled, fund, updated := BorrowUnfolds(l, u, a, amount, now, rate);
    SettledBorrow(l, u, a, amount, now, rate);
    var raised := Raised(l, u, a, updated, fund);
    assert raised == Indebted(l, u, a, settled.principal + amount, now, fund);
    TotalledIff(raised, a, updated.principal - Principal(l, u, a));
    TotalsOnly(l, raised, a, updated.principal - Principal(l, u, a));
  }

  lemma BorrowGoesThrough(l: Ledger, u: Address, a: Address, amount: i128, now: u64, rate: i128)
    requires Principal(l, u, a) >= 0 && MayBorrow(l, u, a, amount, now, rate)
    ensures Borrowed(l, u, a, amount, now, rate).Ok?
  {
    hide SettleAndAccrueInsurance, MayOwe, Borrowed;
    SettledBorrow(l, u, a, amount, now, rate);
    var settlement := SettleAndAccrueInsurance(l.insuranceFund, l.insuranceShareBps, DebtOf(l, u, a, now), now, rate).value;
    BorrowPasses(l, u, a, amount, now, rate, settlement.0, settlement.1);
  }

  /** The checks of a borrow, in order. */
  lemma BorrowPasses(l: Ledger, u: Address, a: Address, amount: i128, now: u64, rate: i128, settled: DebtPosition, fund: i128)
    requires amount > 0 && amount >= l.minBorrow && a in l.assetParams && InI128(settled.principal + amount)
    requires SettleAndAccrueInsurance(l.insuranceFund, l.insuranceShareBps, DebtOf(l, u, a, now), now, rate) == Ok((settled, fund))
    requires BorrowAmount(settled, now, amount, rate) == Ok(DebtPosition(settled.principal + amount, now))
    requires 0 <= Principal(l, u, a) <= settled.principal
    requires MayOwe(l, u, a, settled.principal + amount, now, fund)
    ensures Borrowed(l, u, a, amount, now, rate).Ok?
  {
    hide SettleAndAccrueInsurance, BorrowAmount, HealthFactor, AddTo, Totalled, TotalsFit;
    var rise: i128 := settled.principal + amount - Principal(l, u, a);
    var raised := Raised(l, u, a, DebtPosition(settled.principal + amount, now), fund);
    assert raised == Indebted(l, u, a, settled.principal + amount, now, fund);
    TotalsOnly(l, raised, a, rise);
    TotalledIff(raised, a, rise);
  }

  lemma TotalsOnly(l: Ledger, l': Ledger, a: Address, rise: int)
    requires a in l.assetParams && l' == l.(debts := l'.debts, debtLists := l'.debtLists, insuranceFund := l'.insuranceFund)
    ensures TotalsFit(l', a, rise) <==> TotalsFit(l, a, rise)
  {
  }

  lemma SettledBorrow(l: Ledger, u: Address, a: Address, amount: i128, now: u64, rate: i128)
    requires Principal(l, u, a) >= 0 && amount > 0
    requires SettleAndAccrueInsurance(l.insuranceFund, l.insuranceShareBps, DebtOf(l, u, a, now), now, rate).Ok?
    ensures var settled := SettleAndAccrueInsurance(l.insuranceFund, l.insuranceShareBps, DebtOf(l, u, a, now), now, rate).value.0;
            && Principal(l, u, a) == DebtOf(l, u, a, now).principal <= settled.principal
            && BorrowAmount(settled, now, amount, rate)
               == if InI128(settled.principal + amount) then Ok(DebtPosition(settled.principal + amount, now)) else Err(Overflow)
  {
    SettlementPosition(l.insuranceFund, l.insuranceShareBps, DebtOf(l, u, a, now), now, rate);
    SettlingIsIdempotent(DebtOf(l, u, a, now), now, amount, rate);
    hide SettleAndAccrueInsurance, SettleAccrual;
  }

  /** It then raises both totals by what the principal rose, pays the fund its share, and changes nothing else. */
  lemma BorrowLeaves(l: Ledger, u: Address, a: Address, amount: i128, now: u64, rate: i128)
    requires Principal(l, u, a) >= 0 && Borrowed(l, u, a, amount, now, rate).Ok?
    ensures var r := Borrowed(l, u, a, amount, now, rate).value;
            var settlement := SettleAndAccrueInsurance(l.insuranceFund, l.insuranceShareBps, DebtOf(l, u, a, now), now, rate);
            && settlement.Ok? && r.insuranceFund == settlement.value.1
            && Principal(r, u, a) == settlement.value.0.principal + amount
            && r.totalDebt - l.totalDebt == Principal(r, u, a) - Principal(l, u, a) == TotalOf(r, a) - TotalOf(l, a)
            && r == l.(debts := r.debts, debtLists := r.debtLists, totalDebtAsset := r.totalDebtAsset,
                       totalDebt := r.totalDebt, insuranceFund := r.insuranceFund)
  {
    hide SettleAndAccrueInsurance, SettleAccrual, BorrowAmount, Borrowed, HealthFactor, AddTo, Totalled;
    var settled, fund, updated := BorrowUnfolds(l, u, a, amount, now, rate);
    SettledBorrow(l, u, a, amount, now, rate);
    TotalledIff(Raised(l, u, a, updated, fund), a, updated.principal - Principal(l, u, a));
  }

  /** A repayment succeeds exactly for a positive amount of a configured asset when the debt can be settled.
      The protocol total moves by what the principal did, as far as it fits, and the fund gains its share. */
  lemma RepayIff(l: Ledger, u: Address, a: Address, amount: i128, now: u64, rate: i128)
    requires Principal(l, u, a) >= 0
    ensures var settlement := SettleAndAccrueInsurance(l.insuranceFund, l.insuranceShareBps, DebtOf(l, u, a, now), now, rate);
            Repaid(l, u, a, amount, now, rate).Ok? <==> amount > 0 && a in l.assetParams && settlement.Ok?
    ensures Repaid(l, u, a, amount, now, rate).Ok? ==>
              var r := Repaid(l, u, a, amount, now, rate).value;
              var settlement := SettleAndAccrueInsurance(l.insuranceFund, l.insuranceShareBps, DebtOf(l, u, a, now), now, rate);
              && r.totalDebt == Saturate(l.totalDebt + Principal(r, u, a) - Principal(l, u, a))
              && r.insuranceFund == settlement.value.1
              && r == l.(debts := r.debts, debtLists := r.debtLists, totalDebtAsset := r.totalDebtAsset,
                         totalDebt := r.totalDebt, insuranceFund := r.insuranceFund)
  {
    var settlement := SettleAndAccrueInsurance(l.insuranceFund, l.insuranceShareBps, DebtOf(l, u, a, now), now, rate);
    if settlement.Ok? && amount > 0 {
      SettlementPosition(l.insuranceFund, l.insuranceShareBps, DebtOf(l, u, a, now), now, rate);
      SettlingIsIdempotent(DebtOf(l, u, a, now), now, amount, rate);
    }
    hide SettleAndAccrueInsurance, SettleAccrual, BorrowAmount, RepayAmount, EffectiveDebt, RemoveFrom;
  }

  // ---------------------------------------------------------------------------
  // Configuration
  // ---------------------------------------------------------------------------

  /** A price is stored exactly when positive, at most an hour old, not from the future and newer than the one
      on record; parameters exactly when in range. Either replaces the entry of that asset only. */
  lemma SettersIff(l: Ledger, a: Address, price: PriceRecord, now: u64, params: AssetParams)
    ensures PriceSet(l, a, price, now).Ok? <==>
            && price.price > 0 && price.timestamp <= now <= price.timestamp + 3_600
            && (a in l.prices ==> price.timestamp > l.prices[a].timestamp)
    ensures PriceSet(l, a, price, now).Ok? ==> PriceSet(l, a, price, now).value == l.(prices := l.prices[a := price])
    ensures ParamsSet(l, a, params).Ok? <==>
            0 <= params.liquidationThresholdBps <= 10_000 && params.debtCeiling >= 0 && params.borrowCap >= 0
    ensures ParamsSet(l, a, params).Ok? ==> ParamsSet(l, a, params).value == l.(assetParams := l.assetParams[a := params])
  {
  }

  lemma AttemptKeepsConfigured(l: Ledger, op: Op)
    requires Configured(l) && Attempt(l, op).Ok?
    ensures Configured(Attempt(l, op).value)
  {
    hide HealthFactor, SettleAndAccrueInsurance, BorrowAmount, RepayAmount, AddTo, RemoveFrom;
    match op {
      case Deposit(u, a, x) => DepositIff(l, u, a, x);
      case Withdraw(u, a, x, now) => WithdrawIff(l, u, a, x, now);
      case Borrow(_, _, _, _, _) =>
      case Repay(_, _, _, _, _) =>
      case SetParams(_, _) =>
      case SetPrice(_, _, _) =>
    }
  }

  /** So over every run prices stay positive and thresholds non-negative. */
  lemma {:induction false} RunKeepsConfigured(l: Ledger, ops: seq<Op>)
    requires Configured(l)
    ensures Configured(Run(l, ops))
  {
    if ops == [] {
    } else {
      hide Attempt, Configured;
      var m := Run(l, ops[..|ops| - 1]);
      RunKeepsConfigured(l, ops[..|ops| - 1]);
      if Attempt(m, ops[|ops| - 1]).Ok? {
        AttemptKeepsConfigured(m, ops[|ops| - 1]);
      }
    }
  }
}
