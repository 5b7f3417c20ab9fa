/** What every run of the multi-asset operations keeps: exact index lists and exact totals
    (stellar-lend/contracts/lending/src/cross_asset.rs). */
module CrossLedgerRuns {
  import opened Numeric
  import opened Sequences
  import opened Debt
  import opened MapSum
  import opened CrossLedger

  // ---------------------------------------------------------------------------
  // The invariant
  // ---------------------------------------------------------------------------

  ghost predicate NonNegative(l: Ledger) {
    && (forall u, a :: Balance(l, u, a) >= 0)
    && (forall u, a :: Principal(l, u, a) >= 0)
  }

  /** Each list names an asset exactly when the user's balance or principal in it is positive, once. */
  ghost predicate ListsExact(l: Ledger) {
    && (forall u :: Distinct(ListOf(l.collateralLists, u)))
    && (forall u :: Distinct(ListOf(l.debtLists, u)))
    && (forall u, a :: a in ListOf(l.collateralLists, u) <==> Balance(l, u, a) > 0)
    && (forall u, a :: a in ListOf(l.debtLists, u) <==> Principal(l, u, a) > 0)
  }

  /** Principals of one asset, over all its debtors. */
  ghost function Principals(debts: map<(Address, Address), DebtPosition>, a: Address): map<(Address, Address), int> {
    map k | k in debts && k.1 == a :: debts[k].principal
  }

  ghost predicate TotalsExact(l: Ledger) {
    forall a :: TotalOf(l, a) == Sum(Principals(l.debts, a))
  }

  // ---------------------------------------------------------------------------
  // Lists
  // ---------------------------------------------------------------------------

  lemma AddToExact(lists: map<Address, seq<Address>>, u: Address, a: Address)
    requires Distinct(ListOf(lists, u))
    ensures Distinct(ListOf(AddTo(lists, u, a), u))
    ensures forall x :: x in ListOf(AddTo(lists, u, a), u) <==> x in ListOf(lists, u) || x == a
    ensures forall v :: v != u ==> ListOf(AddTo(lists, u, a), v) == ListOf(lists, v)
  {
  }

  lemma RemoveFromExact(lists: map<Address, seq<Address>>, u: Address, a: Address)
    requires Distinct(ListOf(lists, u))
    ensures Distinct(ListOf(RemoveFrom(lists, u, a), u))
    ensures forall x :: x in ListOf(RemoveFrom(lists, u, a), u) <==> x in ListOf(lists, u) && x != a
    ensures forall v :: v != u ==> ListOf(RemoveFrom(lists, u, a), v) == ListOf(lists, v)
  {
    RemoveFirstRemoves(ListOf(lists, u), a);
  }

  /** Writing a balance and indexing it accordingly keeps the lists exact. */
  lemma CollateralWriteKeepsLists(l: Ledger, l': Ledger, u: Address, a: Address, balance: i128)
    requires NonNegative(l) && ListsExact(l) && balance >= 0
    requires l'.collateral == l.collateral[(u, a) := balance]
    requires l'.debts == l.debts && l'.debtLists == l.debtLists
    requires balance > 0 ==> l'.collateralLists == AddTo(l.collateralLists, u, a)
    requires balance == 0 ==> l'.collateralLists == RemoveFrom(l.collateralLists, u, a)
    ensures NonNegative(l') && ListsExact(l')
  {
    AddToExact(l.collateralLists, u, a);
    RemoveFromExact(l.collateralLists, u, a);
    hide AddTo, RemoveFrom, ListOf, Distinct;
    assert forall v, b :: Balance(l', v, b) == if v == u && b == a then balance else Balance(l, v, b);
    assert forall v, b :: Principal(l', v, b) == Principal(l, v, b);
  }

  lemma DebtWriteKeepsLists(l: Ledger, l': Ledger, u: Address, a: Address, pos: DebtPosition)
    requires NonNegative(l) && ListsExact(l) && pos.principal >= 0
    requires l'.debts == l.debts[(u, a) := pos]
    requires l'.collateral == l.collateral && l'.collateralLists == l.collateralLists
    requires pos.principal > 0 ==> l'.debtLists == AddTo(l.debtLists, u, a)
    requires pos.principal == 0 ==> l'.debtLists == RemoveFrom(l.debtLists, u, a)
    ensures NonNegative(l') && ListsExact(l')
  {
    AddToExact(l.debtLists, u, a);
    RemoveFromExact(l.debtLists, u, a);
    hide AddTo, RemoveFrom, ListOf, Distinct;
    assert forall v, b :: Principal(l', v, b) == if v == u && b == a then pos.principal else Principal(l, v, b);
    assert forall v, b :: Balance(l', v, b) == Balance(l, v, b);
  }

  // ---------------------------------------------------------------------------
  // Totals
  // ---------------------------------------------------------------------------

  /** Writing one position moves the sum of its asset by the change in principal, and no other sum. */
  lemma DebtWriteMovesSum(debts: map<(Address, Address), DebtPosition>, u: Address, a: Address, pos: DebtPosition)
    ensures forall b :: b != a ==> Principals(debts[(u, a) := pos], b) == Principals(debts, b)
    ensures Sum(Principals(debts[(u, a) := pos], a)) ==
            Sum(Principals(debts, a)) - (if (u, a) in debts then debts[(u, a)].principal else 0) + pos.principal
  {
    assert Principals(debts[(u, a) := pos], a) == Principals(debts, a)[(u, a) := pos.principal];
    SumPut(Principals(debts, a), (u, a), pos.principal);
  }

  /** A debtor's principal is part of the sum. */
  lemma PrincipalWithinTotal(l: Ledger, u: Address, a: Address)
    requires NonNegative(l) && TotalsExact(l)
    ensures 0 <= Principal(l, u, a) <= TotalOf(l, a)
  {
    var m := Principals(l.debts, a);
    forall k | k in m ensures m[k] >= 0 {
      assert m[k] == Principal(l, k.0, k.1);
    }
    SumAtLeast(m, (u, a));
  }

  // ---------------------------------------------------------------------------
  // The four operations
  // ---------------------------------------------------------------------------

  lemma DepositKeepsExact(l: Ledger, u: Address, a: Address, amount: i128)
    requires NonNegative(l) && ListsExact(l) && TotalsExact(l) && Deposited(l, u, a, amount).Ok?
    ensures var l' := Deposited(l, u, a, amount).value;
            && NonNegative(l') && ListsExact(l') && TotalsExact(l')
            && Balance(l', u, a) == Balance(l, u, a) + amount
            && (forall v, b :: (v, b) != (u, a) ==> Balance(l', v, b) == Balance(l, v, b))
  {
    var l' := Deposited(l, u, a, amount).value;
    hide ListsExact, Sum, Principals;
    CollateralWriteKeepsLists(l, l', u, a, Balance(l', u, a));
    assert forall b :: TotalOf(l', b) == TotalOf(l, b);
  }

  lemma LoweredKeepsLists(l: Ledger, u: Address, a: Address, balance: i128)
    requires NonNegative(l) && ListsExact(l) && 0 <= balance < Balance(l, u, a)
    ensures NonNegative(Lowered(l, u, a, balance)) && ListsExact(Lowered(l, u, a, balance))
  {
    assert a in ListOf(l.collateralLists, u);
    CollateralWriteKeepsLists(l, Lowered(l, u, a, balance), u, a, balance);
  }

  /** A withdrawal that succeeds leaves the position healthy. */
  lemma WithdrawKeepsExact(l: Ledger, u: Address, a: Address, amount: i128, now: u64)
    requires NonNegative(l) && ListsExact(l) && TotalsExact(l) && Withdrawn(l, u, a, amount, now).Ok?
    ensures var l' := Withdrawn(l, u, a, amount, now).value;
            && NonNegative(l') && ListsExact(l') && TotalsExact(l')
            && Balance(l', u, a) == Balance(l, u, a) - amount
            && (forall v, b :: (v, b) != (u, a) ==> Balance(l', v, b) == Balance(l, v, b))
            && HealthFactor(l', u, now).Ok? && HealthFactor(l', u, now).value >= HEALTH_FACTOR_SCALE
  {
    hide HealthFactor, ListsExact, Sum, Principals;
    var l' := Withdrawn(l, u, a, amount, now).value;
    LoweredKeepsLists(l, u, a, Balance(l, u, a) - amount);
    assert forall b :: TotalOf(l', b) == TotalOf(l, b);
  }

  /** Totals do not enter the health factor. */
  lemma HealthIgnoresTotals(l: Ledger, l': Ledger, u: Address, now: u64)
    requires l' == l.(totalDebtAsset := l'.totalDebtAsset, totalDebt := l'.totalDebt)
    ensures HealthFactor(l', u, now) == HealthFactor(l, u, now)
  {
    SumsIgnoreTotals(l, l', u, ListOf(l.collateralLists, u), now);
    SumsIgnoreTotals(l, l', u, ListOf(l.debtLists, u), now);
    hide WeightedCollateral, DebtValue;
  }

  lemma {:induction false} SumsIgnoreTotals(l: Ledger, l': Ledger, u: Address, list: seq<Address>, now: u64)
    requires l' == l.(totalDebtAsset := l'.totalDebtAsset, totalDebt := l'.totalDebt)
    ensures WeightedCollateral(l', u, list, now) == WeightedCollateral(l, u, list, now)
    ensures DebtValue(l', u, list, now) == DebtValue(l, u, list, now)
  {
    if list == [] {
    } else {
      hide EffectiveDebt;
      SumsIgnoreTotals(l, l', u, list[..|list| - 1], now);
    }
  }

  /** What a successful borrow added to the totals, and the checks it passed. */
  lemma TotalledFacts(l: Ledger, a: Address, delta: i128)
    requires a in l.assetParams && Totalled(l, a, delta).Ok?
    ensures var l' := Totalled(l, a, delta).value;
            && l' == l.(totalDebtAsset := l.totalDebtAsset[a := TotalOf(l, a) + delta], totalDebt := l.totalDebt + delta)
            && TotalOf(l', a) == TotalOf(l, a) + delta
            && TotalOf(l', a) <= l.assetParams[a].debtCeiling
            && (l.assetParams[a].borrowCap != 0 ==> TotalOf(l', a) <= l.assetParams[a].borrowCap)
  {
  }

  /** The checks of a borrow, in order. */
  lemma BorrowUnfolds(l: Ledger, u: Address, a: Address, amount: i128, now: u64, rate: i128)
    returns (settled: DebtPosition, fund: i128, updated: DebtPosition)
    requires Borrowed(l, u, a, amount, now, rate).Ok?
    ensures amount > 0 && a in l.assetParams
    ensures SettleAndAccrueInsurance(l.insuranceFund, l.insuranceShareBps, DebtOf(l, u, a, now), now, rate) == Ok((settled, fund))
    ensures BorrowAmount(settled, now, amount, rate) == Ok(updated)
    ensures var raised := Raised(l, u, a, updated, fund);
            var delta := updated.principal - Principal(l, u, a);
            && HealthFactor(raised, u, now).Ok? && HealthFactor(raised, u, now).value >= HEALTH_FACTOR_SCALE
            && InI128(delta)
            && Borrowed(l, u, a, amount, now, rate) == Totalled(raised, a, delta)
  {
    hide SettleAndAccrueInsurance, BorrowAmount, HealthFactor, Totalled, AddTo;
    var settlement := SettleAndAccrueInsurance(l.insuranceFund, l.insuranceShareBps, DebtOf(l, u, a, now), now, rate).value;
    settled, fund := settlement.0, settlement.1;
    updated := BorrowAmount(settled, now, amount, rate).value;
  }

  lemma SettlementPosition(fund: i128, shareBps: i128, pos: DebtPosition, now: u64, rate: i128)
    requires SettleAndAccrueInsurance(fund, shareBps, pos, now, rate).Ok?
    ensures SettleAccrual(pos, now, rate) == Ok(SettleAndAccrueInsurance(fund, shareBps, pos, now, rate).value.0)
  {
    hide AccrueInterest;
  }

  /** How a borrow unfolds: the position and the totals rise by the settled interest plus the amount. */
  lemma BorrowFacts(l: Ledger, u: Address, a: Address, amount: i128, now: u64, rate: i128) returns (updated: DebtPosition)
    requires Principal(l, u, a) >= 0
    requires Borrowed(l, u, a, amount, now, rate).Ok?
    ensures SettleAccrual(DebtOf(l, u, a, now), now, rate).Ok?
    ensures updated == DebtPosition(SettleAccrual(DebtOf(l, u, a, now), now, rate).value.principal + amount, now)
    ensures updated.principal >= Principal(l, u, a) + amount && amount > 0
    ensures var l' := Borrowed(l, u, a, amount, now, rate).value;
            && l'.debts == l.debts[(u, a) := updated]
            && l'.debtLists == AddTo(l.debtLists, u, a)
            && l'.collateral == l.collateral && l'.collateralLists == l.collateralLists
            && TotalOf(l', a) == TotalOf(l, a) + updated.principal - Principal(l, u, a)
            && l'.totalDebtAsset == l.totalDebtAsset[a := TotalOf(l', a)]
            && a in l.assetParams && TotalOf(l', a) <= l.assetParams[a].debtCeiling
            && (l.assetParams[a].borrowCap != 0 ==> TotalOf(l', a) <= l.assetParams[a].borrowCap)
            && HealthFactor(l', u, now).Ok? && HealthFactor(l', u, now).value >= HEALTH_FACTOR_SCALE
  {
    hide Borrowed, SettleAndAccrueInsurance, SettleAccrual, BorrowAmount, RepayAmount, EffectiveDebt, HealthFactor,
      AddTo, Totalled;
    var settled, fund;
    settled, fund, updated := BorrowUnfolds(l, u, a, amount, now, rate);
    var pos := DebtOf(l, u, a, now);
    SettlementPosition(l.insuranceFund, l.insuranceShareBps, pos, now, rate);
    SettlingIsIdempotent(pos, now, amount, rate);
    var raised := Raised(l, u, a, updated, fund);
    TotalledFacts(raised, a, updated.principal - pos.principal);
    HealthIgnoresTotals(raised, Borrowed(l, u, a, amount, now, rate).value, u, now);
  }

  /** A borrow that succeeds leaves the position healthy and the asset's total within its ceilings. */
  lemma BorrowKeepsExact(l: Ledger, u: Address, a: Address, amount: i128, now: u64, rate: i128)
    requires NonNegative(l) && ListsExact(l) && TotalsExact(l) && Borrowed(l, u, a, amount, now, rate).Ok?
    ensures var l' := Borrowed(l, u, a, amount, now, rate).value;
            && NonNegative(l') && ListsExact(l') && TotalsExact(l')
            && Principal(l', u, a) >= Principal(l, u, a) + amount
            && TotalOf(l', a) <= l.assetParams[a].debtCeiling
            && (l.assetParams[a].borrowCap != 0 ==> TotalOf(l', a) <= l.assetParams[a].borrowCap)
            && HealthFactor(l', u, now).Ok? && HealthFactor(l', u, now).value >= HEALTH_FACTOR_SCALE
  {
    hide Borrowed, HealthFactor, SettleAccrual, ListsExact, Sum, Principals, AddTo, DebtOf;
    var pos := BorrowFacts(l, u, a, amount, now, rate);
    var l' := Borrowed(l, u, a, amount, now, rate).value;
    DebtWriteKeepsLists(l, l', u, a, pos);
    DebtWriteMovesSum(l.debts, u, a, pos);
    assert forall b :: TotalOf(l', b) == if b == a then TotalOf(l, a) - Principal(l, u, a) + pos.principal else TotalOf(l, b);
  }

  /** How a repayment unfolds; the total moves by the change in principal, which is upward when the
      repayment is smaller than the interest settled with it. */
  lemma RepayFacts(l: Ledger, u: Address, a: Address, amount: i128, now: u64, rate: i128)
    requires Principal(l, u, a) >= 0
    requires Repaid(l, u, a, amount, now, rate).Ok?
    ensures var l' := Repaid(l, u, a, amount, now, rate).value;
            && SettleAccrual(DebtOf(l, u, a, now), now, rate).Ok?
            && Principal(l', u, a) == SatSub(SettleAccrual(DebtOf(l, u, a, now), now, rate).value.principal, amount)
            && l'.debts == l.debts[(u, a) := DebtPosition(Principal(l', u, a), now)]
            && l'.debtLists == (if Principal(l', u, a) == 0 then RemoveFrom(l.debtLists, u, a) else l.debtLists)
            && l'.collateral == l.collateral && l'.collateralLists == l.collateralLists
            && l'.totalDebtAsset == l.totalDebtAsset[a := Saturate(TotalOf(l, a) - Principal(l, u, a) + Principal(l', u, a))]
  {
    var pos := DebtOf(l, u, a, now);
    var (settled, fund) := SettleAndAccrueInsurance(l.insuranceFund, l.insuranceShareBps, pos, now, rate).value;
    assert SettleAccrual(pos, now, rate) == Ok(settled);
    SettlingIsIdempotent(pos, now, amount, rate);
    hide SettleAndAccrueInsurance, SettleAccrual, BorrowAmount, RepayAmount, EffectiveDebt, RemoveFrom;
  }

  /** What a repayment would make the sum of principals of `a`, read off the state before it: the debt of
      `u` with its interest, less the amount, in place of the stored principal. */
  function TotalAfterRepay(l: Ledger, u: Address, a: Address, amount: i128, now: u64, rate: i128): int {
    match EffectiveDebt(DebtOf(l, u, a, now), now, rate)
    case Ok(debt) => TotalOf(l, a) - Principal(l, u, a) + Max(debt - amount, 0)
    case Err(_) => TotalOf(l, a)
  }

  /** It is what the repayment leaves. */
  lemma RepayLeavesTotal(l: Ledger, u: Address, a: Address, amount: i128, now: u64, rate: i128)
    requires Principal(l, u, a) >= 0
    requires Repaid(l, u, a, amount, now, rate).Ok?
    ensures TotalAfterRepay(l, u, a, amount, now, rate)
            == TotalOf(l, a) - Principal(l, u, a) + Principal(Repaid(l, u, a, amount, now, rate).value, u, a)
  {
    RepayFacts(l, u, a, amount, now, rate);
    SettlingIsIdempotent(DebtOf(l, u, a, now), now, amount, rate);
    hide Repaid, SettleAccrual, BorrowAmount, RepayAmount, EffectiveDebt;
  }

  lemma RepayKeepsLists(l: Ledger, u: Address, a: Address, amount: i128, now: u64, rate: i128)
    requires NonNegative(l) && ListsExact(l) && Repaid(l, u, a, amount, now, rate).Ok?
    ensures NonNegative(Repaid(l, u, a, amount, now, rate).value)
    ensures ListsExact(Repaid(l, u, a, amount, now, rate).value)
  {
    RepayFacts(l, u, a, amount, now, rate);
    var l' := Repaid(l, u, a, amount, now, rate).value;
    hide Repaid, SettleAccrual, AddTo, RemoveFrom, DebtOf;
    var pos := DebtPosition(Principal(l', u, a), now);
    if pos.principal > 0 {
      RepaidAssetStaysListed(l, u, a, amount, now, rate);
    }
    DebtWriteKeepsLists(l, l', u, a, pos);
  }

  /** A repayment keeps the lists exact, and the totals exact if and only if the sum of principals still
      fits: the saturating subtraction hides a sum pushed past i128 by settled interest. */
  lemma RepayKeepsExact(l: Ledger, u: Address, a: Address, amount: i128, now: u64, rate: i128)
    requires NonNegative(l) && ListsExact(l) && TotalsExact(l) && Repaid(l, u, a, amount, now, rate).Ok?
    ensures var l' := Repaid(l, u, a, amount, now, rate).value;
            && NonNegative(l') && ListsExact(l')
            && (TotalsExact(l') <==> TotalAfterRepay(l, u, a, amount, now, rate) <= I128_MAX)
  {
    RepayFacts(l, u, a, amount, now, rate);
    RepayKeepsLists(l, u, a, amount, now, rate);
    PrincipalWithinTotal(l, u, a);
    RepayLeavesTotal(l, u, a, amount, now, rate);
    var l' := Repaid(l, u, a, amount, now, rate).value;
    var exact := TotalAfterRepay(l, u, a, amount, now, rate);
    hide TotalAfterRepay, Repaid, SettleAccrual, Sum, Principals, AddTo, RemoveFrom, DebtOf, ListsExact, NonNegative;
    var pos := DebtPosition(Principal(l', u, a), now);
    DebtWriteMovesSum(l.debts, u, a, pos);
    assert Sum(Principals(l'.debts, a)) == exact;
    assert forall b :: TotalOf(l', b) == if b == a then Saturate(exact) else TotalOf(l, b);
  }

  /** A debt still positive after a repayment was positive before, so it is already in the list. */
  lemma RepaidAssetStaysListed(l: Ledger, u: Address, a: Address, amount: i128, now: u64, rate: i128)
    requires NonNegative(l) && ListsExact(l) && Repaid(l, u, a, amount, now, rate).Ok?
    requires Principal(Repaid(l, u, a, amount, now, rate).value, u, a) > 0
    ensures AddTo(l.debtLists, u, a) == l.debtLists
  {
    RepayFacts(l, u, a, amount, now, rate);
    hide Repaid, ListsExact;
    NothingSettlesToNothing(DebtOf(l, u, a, now), now, rate);
    ListedIff(l, u, a);
  }

  lemma NothingSettlesToNothing(pos: DebtPosition, now: u64, rate: i128)
    ensures pos.principal == 0 ==> SettleAccrual(pos, now, rate) == Ok(DebtPosition(0, now))
  {
  }

  lemma ListedIff(l: Ledger, u: Address, a: Address)
    requires ListsExact(l)
    ensures a in ListOf(l.debtLists, u) <==> Principal(l, u, a) > 0
  {
  }

  // ---------------------------------------------------------------------------
  // Runs
  // ---------------------------------------------------------------------------

  datatype Op =
    | Deposit(user: Address, asset: Address, amount: i128)
    | Withdraw(user: Address, asset: Address, amount: i128, now: u64)
    | Borrow(user: Address, asset: Address, amount: i128, now: u64, rate: i128)
    | Repay(user: Address, asset: Address, amount: i128, now: u64, rate: i128)
    | SetParams(asset: Address, newParams: AssetParams)
    | SetPrice(asset: Address, price: PriceRecord, now: u64)

  /** `set_asset_params`, called by the administrator. */
  function ParamsSet(l: Ledger, a: Address, p: AssetParams): Result<Ledger, LendingError> {
    if !(0 <= p.liquidationThresholdBps <= 10_000) || p.debtCeiling < 0 || p.borrowCap < 0 then Err(InvalidAmount)
    else Ok(l.(assetParams := l.assetParams[a := p]))
  }

  /** `set_price`, signed by the oracle, with no optional bounds configured. */
  function PriceSet(l: Ledger, a: Address, p: PriceRecord, now: u64): Result<Ledger, LendingError> {
    if p.price <= 0 then Err(InvalidAmount)
    else if p.timestamp > now || now > Min(p.timestamp + ORACLE_MAX_AGE_SECS, U64_MAX) then Err(StaleOracleTimestamp)
    else if a in l.prices && p.timestamp <= l.prices[a].timestamp then Err(OracleReplay)
    else Ok(l.(prices := l.prices[a := p]))
  }

  function Attempt(l: Ledger, op: Op): Result<Ledger, LendingError> {
    match op
    case Deposit(u, a, x) => Deposited(l, u, a, x)
    case Withdraw(u, a, x, now) => Withdrawn(l, u, a, x, now)
    case Borrow(u, a, x, now, rate) => Borrowed(l, u, a, x, now, rate)
    case Repay(u, a, x, now, rate) => Repaid(l, u, a, x, now, rate)
    case SetParams(a, p) => ParamsSet(l, a, p)
    case SetPrice(a, p, now) => PriceSet(l, a, p, now)
  }

  function Run(l: Ledger, ops: seq<Op>): Ledger {
    if ops == [] then l
    else
      var m := Run(l, ops[..|ops| - 1]);
      match Attempt(m, ops[|ops| - 1])
      case Ok(m') => m'
      case Err(_) => m
  }

  /** No repayment that takes effect pushes the sum of principals past i128. */
  ghost predicate SumFits(l: Ledger, op: Op) {
    op.Repay? && Attempt(l, op).Ok? ==>
      TotalAfterRepay(l, op.user, op.asset, op.amount, op.now, op.rate) <= I128_MAX
  }

  ghost predicate Exact(l: Ledger) {
    NonNegative(l) && ListsExact(l) && TotalsExact(l)
  }

  /** A ledger in which nothing was ever deposited or borrowed is exact. */
  lemma EmptyIsExact(l: Ledger)
    requires l.collateral == map[] && l.debts == map[] && l.collateralLists == map[] && l.debtLists == map[]
    requires l.totalDebtAsset == map[]
    ensures Exact(l)
  {
    assert forall a :: Principals(l.debts, a) == map[];
  }

  lemma AttemptKeepsExact(l: Ledger, op: Op)
    requires Exact(l) && Attempt(l, op).Ok?
    ensures Exact(Attempt(l, op).value) <==> SumFits(l, op)
  {
    match op {
      case Deposit(u, a, x) => DepositKeepsExact(l, u, a, x);
      case Withdraw(u, a, x, now) => WithdrawKeepsExact(l, u, a, x, now);
      case Borrow(u, a, x, now, rate) => BorrowKeepsExact(l, u, a, x, now, rate);
      case Repay(u, a, x, now, rate) => RepayKeepsExact(l, u, a, x, now, rate);
      case SetParams(_, _) => ConfigurationIsSeparate(l, Attempt(l, op).value);
      case SetPrice(_, _, _) => ConfigurationIsSeparate(l, Attempt(l, op).value);
    }
  }

  lemma ConfigurationIsSeparate(l: Ledger, l': Ledger)
    requires Exact(l) && l' == l.(assetParams := l'.assetParams, prices := l'.prices)
    ensures Exact(l')
  {
    hide Sum, Principals, Distinct;
    assert forall u, a :: Balance(l', u, a) == Balance(l, u, a) && Principal(l', u, a) == Principal(l, u, a);
    assert forall a :: TotalOf(l', a) == TotalOf(l, a);
  }

  ghost predicate ExactThroughout(l: Ledger, ops: seq<Op>) {
    forall i :: 0 <= i <= |ops| ==> Exact(Run(l, ops[..i]))
  }

  ghost predicate SumsFitThroughout(l: Ledger, ops: seq<Op>) {
    forall i :: 0 <= i < |ops| ==> SumFits(Run(l, ops[..i]), ops[i])
  }

  lemma ThroughoutSplits(l: Ledger, ops: seq<Op>)
    requires ops != []
    ensures var front := ops[..|ops| - 1];
            && (ExactThroughout(l, ops) <==> ExactThroughout(l, front) && Exact(Run(l, ops)))
            && (SumsFitThroughout(l, ops) <==> SumsFitThroughout(l, front) && SumFits(Run(l, front), ops[|ops| - 1]))
  {
    hide Exact, SumFits, Run;
    var front := ops[..|ops| - 1];
    assert ops[..|ops|] == ops;
    assert forall i :: 0 <= i <= |front| ==> front[..i] == ops[..i];
    if ExactThroughout(l, ops) {
      assert forall i :: 0 <= i <= |front| ==> Exact(Run(l, ops[..i]));
      assert Exact(Run(l, ops[..|ops|]));
    }
    if SumsFitThroughout(l, ops) {
      assert forall i :: 0 <= i < |front| ==> SumFits(Run(l, ops[..i]), ops[i]);
    }
  }

  /** Over any run, of any users on any assets, with prices and parameters changing in between: the lists
      stay exact and duplicate-free, and each asset's stored total equals the sum of its debtors'
      principals, at every point of the run, if and only if no repayment in it pushes that sum past i128. */
  lemma {:induction false} RunKeepsExact(l: Ledger, ops: seq<Op>)
    requires Exact(l)
    ensures ExactThroughout(l, ops) <==> SumsFitThroughout(l, ops)
  {
    hide Exact, Attempt;
    if ops == [] {
    } else {
      hide ExactThroughout, SumsFitThroughout;
      var front, op := ops[..|ops| - 1], ops[|ops| - 1];
      RunKeepsExact(l, front);
      ThroughoutSplits(l, ops);
      var m := Run(l, front);
      if ExactThroughout(l, front) {
        LastIsExact(l, front);
        if Attempt(m, op).Ok? {
          AttemptKeepsExact(m, op);
        }
      }
    }
  }

  lemma LastIsExact(l: Ledger, ops: seq<Op>)
    requires ExactThroughout(l, ops)
    ensures Exact(Run(l, ops))
  {
    assert ops[..|ops|] == ops;
  }

  // ---------------------------------------------------------------------------
  // The health factor sees every asset
  // ---------------------------------------------------------------------------

  /** Exact weighted collateral of a user in one asset. */
  function CollateralTerm(l: Ledger, u: Address, a: Address): int {
    if Balance(l, u, a) == 0 || a !in l.assetParams || a !in l.prices then 0
    else Balance(l, u, a) * l.prices[a].price * l.assetParams[a].liquidationThresholdBps
  }

  /** Exact debt value of a user in one asset. */
  function DebtTerm(l: Ledger, u: Address, a: Address, now: u64): int {
    var debt := EffectiveDebt(DebtOf(l, u, a, now), now, DEFAULT_APR_BPS);
    if debt.Err? || a !in l.prices then 0 else debt.value * l.prices[a].price
  }

  ghost function CollateralTerms(l: Ledger, u: Address, keys: set<Address>): map<Address, int> {
    map a | a in keys :: CollateralTerm(l, u, a)
  }

  ghost function DebtTerms(l: Ledger, u: Address, now: u64, keys: set<Address>): map<Address, int> {
    map a | a in keys :: DebtTerm(l, u, a, now)
  }

  /** Totals over any list of assets. */
  ghost function ExactCollateral(l: Ledger, u: Address, assets: seq<Address>): int {
    SumAlong(assets, CollateralTerms(l, u, set a | a in assets))
  }

  ghost function ExactDebt(l: Ledger, u: Address, now: u64, assets: seq<Address>): int {
    SumAlong(assets, DebtTerms(l, u, now, set a | a in assets))
  }

  lemma {:induction false} CollateralLoopIsSum(l: Ledger, u: Address, list: seq<Address>, now: u64, m: map<Address, int>)
    requires WeightedCollateral(l, u, list, now).Ok?
    requires forall a :: a in list ==> Get(m, a) == CollateralTerm(l, u, a)
    ensures WeightedCollateral(l, u, list, now).value == SumAlong(list, m)
  {
    if list == [] {
    } else {
      CollateralLoopIsSum(l, u, list[..|list| - 1], now, m);
      assert list[|list| - 1] in list;
    }
  }

  lemma {:induction false} DebtLoopIsSum(l: Ledger, u: Address, list: seq<Address>, now: u64, m: map<Address, int>)
    requires DebtValue(l, u, list, now).Ok?
    requires forall a :: a in list ==> Get(m, a) == DebtTerm(l, u, a, now)
    ensures DebtValue(l, u, list, now).value == SumAlong(list, m)
  {
    if list == [] {
    } else {
      hide EffectiveDebt;
      DebtLoopIsSum(l, u, list[..|list| - 1], now, m);
      assert list[|list| - 1] in list;
    }
  }

  lemma NoPrincipalNoTerm(l: Ledger, u: Address, a: Address, now: u64)
    requires Principal(l, u, a) == 0
    ensures DebtTerm(l, u, a, now) == 0
  {
  }

  /** Two duplicate-free lists that both name every non-zero entry have the same total. */
  lemma SameSumAlong(s: seq<Address>, t: seq<Address>, ms: map<Address, int>, mt: map<Address, int>, m: map<Address, int>)
    requires Distinct(s) && Distinct(t)
    requires forall a :: a in m && m[a] != 0 ==> a in s && a in t
    requires forall a :: a in s ==> Get(ms, a) == Get(m, a)
    requires forall a :: a in t ==> Get(mt, a) == Get(m, a)
    ensures SumAlong(s, ms) == SumAlong(t, mt)
  {
    SumAlongIsSum(s, m);
    SumAlongIsSum(t, m);
    SumAlongAgrees(s, ms, m);
    SumAlongAgrees(t, mt, m);
  }

  lemma CollateralOverAll(l: Ledger, u: Address, now: u64, assets: seq<Address>)
    requires NonNegative(l) && ListsExact(l) && Distinct(assets)
    requires forall a :: Balance(l, u, a) > 0 ==> a in assets
    requires WeightedCollateral(l, u, ListOf(l.collateralLists, u), now).Ok?
    ensures WeightedCollateral(l, u, ListOf(l.collateralLists, u), now).value == ExactCollateral(l, u, assets)
  {
    hide WeightedCollateral, SumAlong;
    var list := ListOf(l.collateralLists, u);
    var keys := set a | a in list + assets;
    var m := CollateralTerms(l, u, keys);
    CollateralLoopIsSum(l, u, list, now, m);
    SameSumAlong(list, assets, m, CollateralTerms(l, u, set a | a in assets), m);
  }

  lemma DebtOverAll(l: Ledger, u: Address, now: u64, assets: seq<Address>)
    requires NonNegative(l) && ListsExact(l) && Distinct(assets)
    requires forall a :: Principal(l, u, a) > 0 ==> a in assets
    requires DebtValue(l, u, ListOf(l.debtLists, u), now).Ok?
    ensures DebtValue(l, u, ListOf(l.debtLists, u), now).value == ExactDebt(l, u, now, assets)
  {
    hide DebtValue, SumAlong, DebtTerm;
    var list := ListOf(l.debtLists, u);
    var keys := set a | a in list + assets;
    var m := DebtTerms(l, u, now, keys);
    DebtLoopIsSum(l, u, list, now, m);
    forall a | a in m && m[a] != 0 ensures a in list && a in assets {
      if Principal(l, u, a) == 0 {
        NoPrincipalNoTerm(l, u, a, now);
      }
    }
    SameSumAlong(list, assets, m, DebtTerms(l, u, now, set a | a in assets), m);
  }

  lemma NoDebtListNoDebt(l: Ledger, u: Address, now: u64, assets: seq<Address>)
    requires NonNegative(l) && ListsExact(l) && Distinct(assets)
    requires forall a :: Principal(l, u, a) > 0 ==> a in assets
    requires ListOf(l.debtLists, u) == []
    ensures ExactDebt(l, u, now, assets) == 0
  {
    assert DebtValue(l, u, ListOf(l.debtLists, u), now) == Ok(0);
    DebtOverAll(l, u, now, assets);
  }

  /** In an exact ledger the health factor computed along the stored lists is the one over all assets:
      for any duplicate-free enumeration of assets that misses none the user holds or owes. */
  lemma HealthFactorSeesEverything(l: Ledger, u: Address, now: u64, assets: seq<Address>)
    requires NonNegative(l) && ListsExact(l) && Distinct(assets)
    requires forall a :: Balance(l, u, a) > 0 || Principal(l, u, a) > 0 ==> a in assets
    requires HealthFactor(l, u, now).Ok?
    ensures HealthFactor(l, u, now).value ==
            if ExactDebt(l, u, now, assets) == 0 then 100_000_000
            else TruncDiv(ExactCollateral(l, u, assets), ExactDebt(l, u, now, assets))
  {
    hide WeightedCollateral, DebtValue, ExactCollateral, ExactDebt, TruncDiv;
    if ListOf(l.debtLists, u) == [] {
      NoDebtListNoDebt(l, u, now, assets);
    } else {
      CollateralOverAll(l, u, now, assets);
      DebtOverAll(l, u, now, assets);
    }
  }
}
