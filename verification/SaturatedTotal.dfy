/** A run in which a repayment leaves an asset's total short of the sum of principals
    (stellar-lend/contracts/lending/src/cross_asset.rs). */
module SaturatedTotal {
  import opened Numeric
  import opened Debt
  import opened CrossLedger
  import opened CrossLedgerRuns
  import opened CrossLedgerOutcomes

  const YEAR: u64 := 31_536_000

  /** The most one healthy user can owe (`HealthyDebtIsSmall`). Ten thousand users owe this much, and one
      more owes the rest. */
  const SHARE: i128 := 17_014_118_346_046_923_173_168_730_371_588_410
  const REST: i128 := 5_727
  const SHARES: nat := 10_000

  lemma EffectiveAtLeast(pos: DebtPosition, now: u64, rate: i128)
    requires pos.principal >= 0 && EffectiveDebt(pos, now, rate).Ok?
    ensures EffectiveDebt(pos, now, rate).value >= pos.principal
  {
    hide InterestOf;
  }

  lemma OneDebtCovers(l: Ledger, u: Address, b: Address, now: u64, acc: i128)
    requires Principal(l, u, b) >= 0 && PositivePrices(l) && AddDebtValue(l, u, b, now, acc).Ok?
    ensures AddDebtValue(l, u, b, now, acc).value >= acc + Principal(l, u, b)
  {
    var pos := DebtOf(l, u, b, now);
    var price, debt := PriceFor(l, b, now).value, EffectiveDebt(pos, now, DEFAULT_APR_BPS).value;
    EffectiveAtLeast(pos, now, DEFAULT_APR_BPS);
    assert price > 0 && debt >= Principal(l, u, b);
    hide EffectiveDebt, PriceFor, PositivePrices, Principal, DebtOf;
    assert debt * price >= debt by {
      MulMono(1, price, debt);
    }
  }

  lemma {:induction false} DebtValueCovers(l: Ledger, u: Address, list: seq<Address>, now: u64, a: Address)
    requires NonNegative(l) && PositivePrices(l) && DebtValue(l, u, list, now).Ok?
    ensures DebtValue(l, u, list, now).value >= 0
    ensures a in list ==> DebtValue(l, u, list, now).value >= Principal(l, u, a)
  {
    hide AddDebtValue;
    if list == [] {
    } else {
      var front, b := list[..|list| - 1], list[|list| - 1];
      DebtValueCovers(l, u, front, now, a);
      assert Principal(l, u, b) >= 0;
      OneDebtCovers(l, u, b, now, DebtValue(l, u, front, now).value);
    }
  }

  /** At positive prices nobody healthy owes more than a ten-thousandth of i128, so no single debtor can
      bring a total near its end. */
  lemma HealthyDebtIsSmall(l: Ledger, u: Address, a: Address, now: u64)
    requires NonNegative(l) && ListsExact(l) && PositivePrices(l)
    requires HealthFactor(l, u, now).Ok? && HealthFactor(l, u, now).value >= HEALTH_FACTOR_SCALE
    ensures Principal(l, u, a) <= SHARE
  {
    var list := ListOf(l.debtLists, u);
    if Principal(l, u, a) > 0 {
      assert a in list;
      DebtValueCovers(l, u, list, now, a);
      hide DebtValue, WeightedCollateral, ListsExact, NonNegative;
      var debt := DebtValue(l, u, list, now).value;
      var weighted := WeightedCollateral(l, u, ListOf(l.collateralLists, u), now).value;
      QuotientAtLeast(weighted, debt, HEALTH_FACTOR_SCALE);
    }
  }

  lemma QuotientAtLeast(a: int, b: int, q: int)
    requires b > 0 && q > 0 && TruncDiv(a, b) >= q
    ensures a >= q * b
  {
    if a >= 0 {
      FloorDiv(a, b);
      MulMono(q, a / b, b);
    } else {
      FloorDivAtLeast(-a, b, 0) by {
        assert 0 * b <= -a;
      }
    }
  }

  function Member(k: nat): Address {
    Address(k)
  }

  function Amount(k: nat): i128 {
    if k < SHARES then SHARE else REST
  }

  function Owed(n: nat): int {
    if n <= SHARES then n * SHARE else SHARES * SHARE + (n - SHARES) * REST
  }

  /** Nothing ever configured, deposited or borrowed. */
  function EmptyLedger(): Ledger {
    Ledger(map[], map[], map[], map[], map[], 0, 0, 0, map[], map[], 0)
  }

  /** The asset is listed without a cap and priced at one; then `n` users deposit and borrow in turn. */
  function Script(n: nat, a: Address, t: u64, rate: i128): seq<Op> {
    if n == 0 then [SetParams(a, AssetParams(10_000, I128_MAX, 0)), SetPrice(a, PriceRecord(1, t), t)]
    else
      Script(n - 1, a, t, rate)
      + [Deposit(Member(n - 1), a, Amount(n - 1))] + [Borrow(Member(n - 1), a, Amount(n - 1), t, rate)]
  }

  ghost predicate Untouched(l: Ledger, a: Address, u: Address) {
    && (u, a) !in l.collateral && (u, a) !in l.debts
    && ListOf(l.collateralLists, u) == [] && ListOf(l.debtLists, u) == []
  }

  ghost predicate AfterBorrowers(l: Ledger, n: nat, a: Address, t: u64) {
    && l.minBorrow == 0 && l.insuranceFund == 0 && l.insuranceShareBps == 0
    && a in l.assetParams && l.assetParams[a] == AssetParams(10_000, I128_MAX, 0)
    && a in l.prices && l.prices[a] == PriceRecord(1, t)
    && TotalOf(l, a) == Owed(n) && l.totalDebt == Owed(n)
    && (n > 0 ==> (Member(n - 1), a) in l.debts && l.debts[(Member(n - 1), a)] == DebtPosition(Amount(n - 1), t))
    && (forall k: nat :: k >= n ==> Untouched(l, a, Member(k)))
  }

  lemma OwedFits(n: nat)
    requires n <= SHARES
    ensures 0 <= Owed(n) && Owed(n + 1) == Owed(n) + Amount(n) <= I128_MAX
    ensures Amount(n) > 0 && InI128(Amount(n) * 10_000)
  {
    if n < SHARES {
      assert (n + 1) * SHARE == n * SHARE + SHARE;
    }
  }

  /** Alone in its lists and priced at one, a debt no larger than the collateral is healthy. */
  lemma HealthyAlone(l: Ledger, a: Address, u: Address, x: i128, t: u64)
    requires x > 0 && InI128(x * 10_000)
    requires ListOf(l.collateralLists, u) == [a] && ListOf(l.debtLists, u) == [a]
    requires Balance(l, u, a) == x && DebtOf(l, u, a, t) == DebtPosition(x, t)
    requires a in l.assetParams && l.assetParams[a].liquidationThresholdBps == 10_000
    requires a in l.prices && l.prices[a] == PriceRecord(1, t)
    ensures HealthFactor(l, u, t) == Ok(10_000)
  {
    assert [a][..0] == [];
    assert WeightedCollateral(l, u, [], t) == Ok(0) && DebtValue(l, u, [], t) == Ok(0);
    assert PriceFor(l, a, t) == Ok(1);
    assert EffectiveDebt(DebtPosition(x, t), t, DEFAULT_APR_BPS) == Ok(x);
    assert AddDebtValue(l, u, a, t, 0) == Ok(x);
    assert AddWeighted(l, u, a, t, 0) == Ok(x * 10_000);
    assert WeightedCollateral(l, u, [a], t) == Ok(x * 10_000);
    assert DebtValue(l, u, [a], t) == Ok(x);
    DivModUnique(x * 10_000, x, 10_000, 0);
  }

  lemma FirstDeposit(l: Ledger, u: Address, a: Address, x: i128)
    requires x > 0 && a in l.assetParams && Untouched(l, a, u)
    ensures Deposited(l, u, a, x)
            == Ok(l.(collateral := l.collateral[(u, a) := x], collateralLists := l.collateralLists[u := [a]]))
  {
    assert [] + [a] == [a];
  }

  /** The first borrow of a user who has just deposited as much. */
  lemma FirstBorrow(m: Ledger, u: Address, a: Address, x: i128, t: u64, rate: i128)
    requires x > 0 && InI128(x * 10_000)
    requires m.minBorrow == 0 && m.insuranceFund == 0 && m.insuranceShareBps == 0
    requires a in m.assetParams && m.assetParams[a] == AssetParams(10_000, I128_MAX, 0)
    requires a in m.prices && m.prices[a] == PriceRecord(1, t)
    requires ListOf(m.collateralLists, u) == [a] && Balance(m, u, a) == x
    requires ListOf(m.debtLists, u) == [] && (u, a) !in m.debts
    requires InI128(TotalOf(m, a) + x) && InI128(m.totalDebt + x)
    ensures Borrowed(m, u, a, x, t, rate)
            == Ok(m.(debts := m.debts[(u, a) := DebtPosition(x, t)], debtLists := m.debtLists[u := [a]],
                     totalDebtAsset := m.totalDebtAsset[a := TotalOf(m, a) + x], totalDebt := m.totalDebt + x))
  {
    assert SettleAndAccrueInsurance(0, 0, DebtPosition(0, t), t, rate) == Ok((DebtPosition(0, t), 0));
    assert BorrowAmount(DebtPosition(0, t), t, x, rate) == Ok(DebtPosition(x, t));
    hide SettleAndAccrueInsurance, BorrowAmount, HealthFactor;
    var raised := Raised(m, u, a, DebtPosition(x, t), 0);
    HealthyAlone(raised, a, u, x, t);
  }

  /** Ledger after a new user's deposit and borrow of the same amount. */
  function Joined(l: Ledger, u: Address, a: Address, x: i128, t: u64): Ledger
    requires InI128(TotalOf(l, a) + x) && InI128(l.totalDebt + x)
  {
    l.(collateral := l.collateral[(u, a) := x], collateralLists := l.collateralLists[u := [a]],
       debts := l.debts[(u, a) := DebtPosition(x, t)], debtLists := l.debtLists[u := [a]],
       totalDebtAsset := l.totalDebtAsset[a := TotalOf(l, a) + x], totalDebt := l.totalDebt + x)
  }

  lemma JoinKeepsShape(l: Ledger, n: nat, a: Address, t: u64)
    requires n <= SHARES && AfterBorrowers(l, n, a, t)
    requires InI128(TotalOf(l, a) + Amount(n)) && InI128(l.totalDebt + Amount(n)) && Owed(n + 1) == Owed(n) + Amount(n)
    ensures AfterBorrowers(Joined(l, Member(n), a, Amount(n), t), n + 1, a, t)
  {
    hide Owed, Amount;
    var after := Joined(l, Member(n), a, Amount(n), t);
    forall k: nat | k >= n + 1 ensures Untouched(after, a, Member(k)) {
      assert Untouched(l, a, Member(k));
    }
    hide Untouched;
  }

  lemma OneBorrower(l: Ledger, n: nat, a: Address, t: u64, rate: i128)
    requires n <= SHARES && AfterBorrowers(l, n, a, t)
    ensures Deposited(l, Member(n), a, Amount(n)).Ok?
    ensures var m := Deposited(l, Member(n), a, Amount(n)).value;
            && Borrowed(m, Member(n), a, Amount(n), t, rate).Ok?
            && AfterBorrowers(Borrowed(m, Member(n), a, Amount(n), t, rate).value, n + 1, a, t)
  {
    OwedFits(n);
    JoinKeepsShape(l, n, a, t);
    var u, x := Member(n), Amount(n);
    assert Untouched(l, a, u);
    FirstDeposit(l, u, a, x);
    hide Owed, Amount, Borrowed, Deposited;
    FirstBorrow(Deposited(l, u, a, x).value, u, a, x, t, rate);
    hide AfterBorrowers;
  }

  lemma {:induction false} ScriptRuns(n: nat, a: Address, t: u64, rate: i128)
    requires n <= SHARES + 1
    ensures AfterBorrowers(Run(EmptyLedger(), Script(n, a, t, rate)), n, a, t)
    ensures Exact(Run(EmptyLedger(), Script(n, a, t, rate)))
  {
    hide AfterBorrowers, Exact, Deposited, Borrowed, Amount, Run;
    if n == 0 {
      FirstListing(a, t, rate);
    } else {
      var front := Script(n - 1, a, t, rate);
      var deposit, borrow := Deposit(Member(n - 1), a, Amount(n - 1)), Borrow(Member(n - 1), a, Amount(n - 1), t, rate);
      ScriptRuns(n - 1, a, t, rate);
      OneBorrower(Run(EmptyLedger(), front), n - 1, a, t, rate);
      TwoMore(EmptyLedger(), front, deposit, borrow);
    }
  }

  lemma FirstListing(a: Address, t: u64, rate: i128)
    ensures var l := Run(EmptyLedger(), Script(0, a, t, rate));
            AfterBorrowers(l, 0, a, t) && Exact(l)
  {
    var ops := Script(0, a, t, rate);
    assert ops[..1] == [ops[0]] && [ops[0]][..0] == [];
    assert Run(EmptyLedger(), []) == EmptyLedger();
    var l := ParamsSet(EmptyLedger(), a, AssetParams(10_000, I128_MAX, 0)).value;
    assert Run(EmptyLedger(), [ops[0]]) == l;
    EmptyIsExact(Run(EmptyLedger(), ops));
    assert Owed(0) == 0;
  }

  /** A deposit and a borrow that both succeed, at the end of a run that is exact so far. */
  lemma TwoMore(l: Ledger, front: seq<Op>, deposit: Op, borrow: Op)
    requires Exact(Run(l, front)) && deposit.Deposit? && borrow.Borrow?
    requires Attempt(Run(l, front), deposit).Ok?
    requires Attempt(Attempt(Run(l, front), deposit).value, borrow).Ok?
    ensures Run(l, front + [deposit] + [borrow]) == Attempt(Attempt(Run(l, front), deposit).value, borrow).value
    ensures Exact(Run(l, front + [deposit] + [borrow]))
  {
    hide Attempt, Exact;
    assert (front + [deposit])[..|front|] == front;
    assert (front + [deposit] + [borrow])[..|front| + 1] == front + [deposit];
    AttemptKeepsExact(Run(l, front), deposit);
    AttemptKeepsExact(Attempt(Run(l, front), deposit).value, borrow);
  }

  /** The saturation can be reached: a run from the empty ledger, in which each user is healthy when
      borrowing, leads to an exact ledger on which a repayment of one unit a year later, at any rate from 10
      to 10000 bps, adds more interest than it repays and leaves a total short of the sum. */
  lemma RepayCanSaturate(a: Address, t: u64, rate: i128)
    requires t + YEAR <= U64_MAX && 10 <= rate <= 10_000
    ensures var l := Run(EmptyLedger(), Script(SHARES + 1, a, t, rate));
            && Exact(l)
            && Repaid(l, Member(SHARES), a, 1, t + YEAR, rate).Ok?
            && !TotalsExact(Repaid(l, Member(SHARES), a, 1, t + YEAR, rate).value)
  {
    hide Run, Script;
    ScriptRuns(SHARES + 1, a, t, rate);
    LastRepays(Run(EmptyLedger(), Script(SHARES + 1, a, t, rate)), a, t, rate);
  }

  lemma LastRepays(l: Ledger, a: Address, t: u64, rate: i128)
    requires t + YEAR <= U64_MAX && 10 <= rate <= 10_000
    requires AfterBorrowers(l, SHARES + 1, a, t) && Exact(l)
    ensures Repaid(l, Member(SHARES), a, 1, t + YEAR, rate).Ok?
    ensures !TotalsExact(Repaid(l, Member(SHARES), a, 1, t + YEAR, rate).value)
  {
    var pos := DebtPosition(REST, t);
    RestAccrues(rate);
    hide AccrueInterest, TotalsExact, NonNegative, ListsExact;
    assert DebtOf(l, Member(SHARES), a, t + YEAR) == pos;
    assert EffectiveDebt(pos, t + YEAR, rate).Ok? && EffectiveDebt(pos, t + YEAR, rate).value > REST + 1;
    assert TotalOf(l, a) == I128_MAX;
    RepayKeepsExact(l, Member(SHARES), a, 1, t + YEAR, rate);
  }

  /** A year's interest on the rest, at any such rate, is more than one unit. */
  lemma RestAccrues(rate: i128)
    requires 10 <= rate <= 10_000
    ensures AccrueInterest(REST, YEAR, rate).Ok? && 1 < AccrueInterest(REST, YEAR, rate).value <= 5_728
  {
    assert AccrueInterest(REST, YEAR, 10) == Ok(5);
    assert AccrueInterest(REST, YEAR, 10_000).Ok? && AccrueInterest(REST, YEAR, 10_000).value <= 5_728;
    AccrualMonotone(REST, REST, YEAR, YEAR, rate, 10_000);
    AccrualMonotone(REST, REST, YEAR, YEAR, 10, rate);
  }
}
