/** The cross-asset ledger: registration, the four operations, the position summary, and the totals
    (stellar-lend/contracts/hello-world/src/cross_asset.rs). A call that fails is rolled back. */
module AssetLedger {
  import opened Numeric
  import opened Sequences
  import opened MapSum
  import opened AssetValue

  datatype AssetKey = Native | Token(address: int)
  datatype User = User(id: int)

  type Balances = map<(AssetKey, User), i128>
  type PerAsset = map<AssetKey, i128>

  datatype Book = Book(
    configs: map<AssetKey, AssetConfig>,
    assets: seq<AssetKey>,
    supply: Balances,
    debt: Balances,
    totalSupply: PerAsset,
    totalDebt: PerAsset)

  function BalanceOf(b: Balances, a: AssetKey, u: User): i128 {
    if (a, u) in b then b[(a, u)] else 0
  }

  function TotalIn(t: PerAsset, a: AssetKey): i128 {
    if a in t then t[a] else 0
  }

  function PositionOf(b: Book, a: AssetKey, u: User): AssetPosition {
    AssetPosition(BalanceOf(b.supply, a, u), BalanceOf(b.debt, a, u))
  }

  // ---------------------------------------------------------------------------
  // The summary
  // ---------------------------------------------------------------------------

  function Summed(b: Book, u: User, list: seq<AssetKey>): Result<Totals, CrossAssetError> {
    if list == [] then Ok(Totals(0, 0, 0))
    else
      var acc :- Summed(b, u, list[..|list| - 1]);
      var a := list[|list| - 1];
      if a !in b.configs then Err(AssetNotFound) else AddAsset(acc, b.configs[a], PositionOf(b, a, u))
  }

  lemma {:induction false} SummedFailsForGood(b: Book, u: User, list: seq<AssetKey>, k: nat)
    requires k <= |list| && Summed(b, u, list[..k]).Err?
    ensures Summed(b, u, list) == Summed(b, u, list[..k])
  {
    if k < |list| {
      assert list[..|list| - 1][..k] == list[..k];
      SummedFailsForGood(b, u, list[..|list| - 1], k);
    } else {
      assert list[..k] == list;
    }
  }

  // ---------------------------------------------------------------------------
  // Specification of the operations
  // ---------------------------------------------------------------------------

  function Registered(b: Book, a: AssetKey, cfg: AssetConfig): Result<Book, CrossAssetError> {
    if cfg.priceDecimals > MAX_DECIMALS then Err(InvalidDecimals)
    else if cfg.collateralFactorBps < 0 || cfg.collateralFactorBps > BPS then Err(InvalidCollateralFactor)
    else if a in b.configs then Err(AssetAlreadyExists)
    else Ok(b.(configs := b.configs[a := cfg], assets := b.assets + [a]))
  }

  function Repriced(b: Book, a: AssetKey, price: i128): Result<Book, CrossAssetError> {
    if price <= 0 then Err(InvalidAmount)
    else if a !in b.configs then Err(AssetNotFound)
    else Ok(b.(configs := b.configs[a := b.configs[a].(price := price)]))
  }

  function Deposited(b: Book, u: User, a: AssetKey, amount: i128): Result<Book, CrossAssetError> {
    if amount <= 0 then Err(InvalidAmount)
    else if a !in b.configs then Err(AssetNotFound)
    else
      var supplied :- Checked(BalanceOf(b.supply, a, u) + amount).OkOr(Overflow);
      var total :- Checked(TotalIn(b.totalSupply, a) + amount).OkOr(Overflow);
      Ok(b.(supply := b.supply[(a, u) := supplied], totalSupply := b.totalSupply[a := total]))
  }

  function Withdrawn(b: Book, u: User, a: AssetKey, amount: i128): Result<Book, CrossAssetError> {
    if amount <= 0 then Err(InvalidAmount)
    else if BalanceOf(b.supply, a, u) < amount then Err(InsufficientCollateral)
    else
      var total :- Checked(TotalIn(b.totalSupply, a) - amount).OkOr(Panicked);
      Ok(b.(supply := b.supply[(a, u) := BalanceOf(b.supply, a, u) - amount], totalSupply := b.totalSupply[a := total]))
  }

  function Borrowed(b: Book, u: User, a: AssetKey, amount: i128): Result<Book, CrossAssetError> {
    if amount <= 0 then Err(InvalidAmount)
    else if a !in b.configs then Err(AssetNotFound)
    else if !b.configs[a].canBorrow then Err(BorrowNotAllowed)
    else
      var borrowed :- Checked(BalanceOf(b.debt, a, u) + amount).OkOr(Overflow);
      var total :- Checked(TotalIn(b.totalDebt, a) + amount).OkOr(Overflow);
      var b' := b.(debt := b.debt[(a, u) := borrowed], totalDebt := b.totalDebt[a := total]);
      var summary :- Summed(b', u, b'.assets);
      if IsHealthy(summary) then Ok(b') else Err(InsufficientCollateral)
  }

  /** The clamp of the total at zero is kept as the source has it. */
  function Repaid(b: Book, u: User, a: AssetKey, amount: i128): Result<Book, CrossAssetError> {
    if amount <= 0 then Err(InvalidAmount)
    else
      var repay := Min(amount, BalanceOf(b.debt, a, u));
      var total :- Checked(TotalIn(b.totalDebt, a) - repay).OkOr(Panicked);
      Ok(b.(debt := b.debt[(a, u) := BalanceOf(b.debt, a, u) - repay], totalDebt := b.totalDebt[a := Max(total, 0)]))
  }

  // ---------------------------------------------------------------------------
  // The stored book
  // ---------------------------------------------------------------------------

  class BookStore {
    var configs: map<AssetKey, AssetConfig>
    var assets: seq<AssetKey>
    var supply: Balances
    var debt: Balances
    var totalSupply: PerAsset
    var totalDebt: PerAsset

    function Contents(): Book
      reads this
    {
      Book(configs, assets, supply, debt, totalSupply, totalDebt)
    }

    constructor ()
      ensures Contents() == Book(map[], [], map[], map[], map[], map[])
    {
      configs, assets, supply, debt, totalSupply, totalDebt := map[], [], map[], map[], map[], map[];
    }

    /** The host undoes every write of a call that fails. */
    method Rollback(b: Book)
      modifies this
      ensures Contents() == b
    {
      configs, assets, supply := b.configs, b.assets, b.supply;
      debt, totalSupply, totalDebt := b.debt, b.totalSupply, b.totalDebt;
    }

    /** `initialize_asset`. */
    method InitializeAsset(a: AssetKey, cfg: AssetConfig) returns (r: Result<(), CrossAssetError>)
      modifies this`configs, this`assets
      ensures match Registered(old(Contents()), a, cfg)
              case Ok(b) => r == Ok(()) && Contents() == b
              case Err(e) => r == Err(e) && Contents() == old(Contents())
    {
      if cfg.priceDecimals > MAX_DECIMALS { return Err(InvalidDecimals); }
      if cfg.collateralFactorBps < 0 || cfg.collateralFactorBps > BPS { return Err(InvalidCollateralFactor); }
      if a in configs { return Err(AssetAlreadyExists); }
      configs := configs[a := cfg];
      assets := assets + [a];
      return Ok(());
    }

    /** `update_asset_price`. */
    method UpdateAssetPrice(a: AssetKey, price: i128) returns (r: Result<(), CrossAssetError>)
      modifies this`configs
      ensures match Repriced(old(Contents()), a, price)
              case Ok(b) => r == Ok(()) && Contents() == b
              case Err(e) => r == Err(e) && Contents() == old(Contents())
    {
      if price <= 0 { return Err(InvalidAmount); }
      if a !in configs { return Err(AssetNotFound); }
      configs := configs[a := configs[a].(price := price)];
      return Ok(());
    }

    /** `get_user_position_summary`. */
    method UserPositionSummary(u: User) returns (r: Result<Totals, CrossAssetError>)
      ensures r == Summed(Contents(), u, assets)
    {
      hide AddAsset;
      var b := Contents();
      var acc := Totals(0, 0, 0);
      assert assets[..|assets|] == assets;
      for i := 0 to |assets|
        invariant Summed(b, u, assets[..i]) == Ok(acc)
      {
        assert assets[..i + 1][..i] == assets[..i];
        var a := assets[i];
        if a !in configs {
          SummedFailsForGood(b, u, assets, i + 1);
          return Err(AssetNotFound);
        }
        var next := AddAsset(acc, configs[a], PositionOf(b, a, u));
        if next.Err? {
          SummedFailsForGood(b, u, assets, i + 1);
          return next;
        }
        acc := next.value;
      }
      return Ok(acc);
    }

    /** `cross_asset_deposit`. */
    method Deposit(u: User, a: AssetKey, amount: i128) returns (r: Result<AssetPosition, CrossAssetError>)
      modifies this
      ensures match Deposited(old(Contents()), u, a, amount)
              case Ok(b) => r == Ok(PositionOf(b, a, u)) && Contents() == b
              case Err(e) => r == Err(e) && Contents() == old(Contents())
    {
      if amount <= 0 { return Err(InvalidAmount); }
      if a !in configs { return Err(AssetNotFound); }
      var saved := Contents();
      var position := PositionOf(saved, a, u);
      var supplied :- Checked(position.supplied as int + amount).OkOr(Overflow);
      supply := supply[(a, u) := supplied];
      var total := Checked(TotalIn(totalSupply, a) as int + amount);
      if total.None? {
        Rollback(saved);
        return Err(Overflow);
      }
      totalSupply := totalSupply[a := total.value];
      return Ok(position.(supplied := supplied));
    }

    /** `cross_asset_withdraw`. */
    method Withdraw(u: User, a: AssetKey, amount: i128) returns (r: Result<AssetPosition, CrossAssetError>)
      modifies this
      ensures match Withdrawn(old(Contents()), u, a, amount)
              case Ok(b) => r == Ok(PositionOf(b, a, u)) && Contents() == b
              case Err(e) => r == Err(e) && Contents() == old(Contents())
    {
      if amount <= 0 { return Err(InvalidAmount); }
      var saved := Contents();
      var position := PositionOf(saved, a, u);
      hide TotalIn, Checked;
      if position.supplied < amount { return Err(InsufficientCollateral); }
      var current := TotalIn(totalSupply, a);
      position := position.(supplied := position.supplied - amount);
      supply := supply[(a, u) := position.supplied];
      var total := Checked(current as int - amount);
      if total.None? {
        Rollback(saved);
        return Err(Panicked);
      }
      totalSupply := totalSupply[a := total.value];
      return Ok(position);
    }

    /** `cross_asset_borrow`. */
    method Borrow(u: User, a: AssetKey, amount: i128) returns (r: Result<AssetPosition, CrossAssetError>)
      modifies this
      ensures match Borrowed(old(Contents()), u, a, amount)
              case Ok(b) => r == Ok(PositionOf(b, a, u)) && Contents() == b
              case Err(e) => r == Err(e) && Contents() == old(Contents())
    {
      hide Summed, IsHealthy, TotalIn, Checked;
      if amount <= 0 { return Err(InvalidAmount); }
      if a !in configs { return Err(AssetNotFound); }
      if !configs[a].canBorrow { return Err(BorrowNotAllowed); }
      var saved := Contents();
      var position := PositionOf(saved, a, u);
      var current := TotalIn(totalDebt, a);
      var borrowed :- Checked(position.borrowed as int + amount).OkOr(Overflow);
      debt := debt[(a, u) := borrowed];
      var total := Checked(current as int + amount);
      if total.None? {
        Rollback(saved);
        return Err(Overflow);
      }
      totalDebt := totalDebt[a := total.value];
      var summary := UserPositionSummary(u);
      if summary.Err? {
        Rollback(saved);
        return Err(summary.error);
      }
      if !IsHealthy(summary.value) {
        Rollback(saved);
        return Err(InsufficientCollateral);
      }
      return Ok(position.(borrowed := borrowed));
    }

    /** `cross_asset_repay`. */
    method Repay(u: User, a: AssetKey, amount: i128) returns (r: Result<AssetPosition, CrossAssetError>)
      modifies this
      ensures match Repaid(old(Contents()), u, a, amount)
              case Ok(b) => r == Ok(PositionOf(b, a, u)) && Contents() == b
              case Err(e) => r == Err(e) && Contents() == old(Contents())
    {
      if amount <= 0 { return Err(InvalidAmount); }
      var saved := Contents();
      var position := PositionOf(saved, a, u);
      var repay := Min(amount, position.borrowed);
      var current := TotalIn(totalDebt, a);
      hide TotalIn, Checked;
      position := position.(borrowed := position.borrowed - repay);
      debt := debt[(a, u) := position.borrowed];
      var total := Checked(current as int - repay);
      if total.None? {
        Rollback(saved);
        return Err(Panicked);
      }
      totalDebt := totalDebt[a := Max(total.value, 0)];
      return Ok(position);
    }
  }

  // ---------------------------------------------------------------------------
  // The summary is conservative
  // ---------------------------------------------------------------------------

  ghost predicate SaneAssets(b: Book, list: seq<AssetKey>) {
    forall a :: a in list && a in b.configs ==> SaneConfig(b.configs[a])
  }

  /** Exact weighted collateral of a user over a list of assets. */
  function CapacityAlong(b: Book, u: User, list: seq<AssetKey>): int {
    if list == [] then 0
    else
      var a := list[|list| - 1];
      CapacityAlong(b, u, list[..|list| - 1])
      + if a in b.configs then ExactCapacity(b.configs[a], BalanceOf(b.supply, a, u)) else 0
  }

  /** Exact debt of a user over a list of assets. */
  function DebtAlong(b: Book, u: User, list: seq<AssetKey>): int {
    if list == [] then 0
    else
      var a := list[|list| - 1];
      DebtAlong(b, u, list[..|list| - 1])
      + if a in b.configs then ExactDebt(b.configs[a], BalanceOf(b.debt, a, u)) else 0
  }

  function RoomAlong(b: Book, u: User, list: seq<AssetKey>): int {
    if list == [] then 0
    else
      var a := list[|list| - 1];
      RoomAlong(b, u, list[..|list| - 1])
      + if a in b.configs then RoundingRoom(b.configs[a], PositionOf(b, a, u)) else 0
  }

  lemma AssetBounds(acc: Totals, cfg: AssetConfig, pos: AssetPosition)
    requires SaneConfig(cfg) && AddAsset(acc, cfg, pos).Ok?
    ensures var t := AddAsset(acc, cfg, pos).value;
            var cap, owed := (t.capacity - acc.capacity) * UNIT, (t.debt - acc.debt) * UNIT;
            && t.capacity >= acc.capacity && t.debt >= acc.debt
            && cap <= ExactCapacity(cfg, pos.supplied)
            && ExactDebt(cfg, pos.borrowed) <= owed
            && (ExactCapacity(cfg, pos.supplied) - cap) + (owed - ExactDebt(cfg, pos.borrowed)) <= RoundingRoom(cfg, pos)
  {
    PricesAreNormal(acc, cfg, pos);
    hide NormalizePrice, NormalizePriceCeil, CollateralOf, DebtOf, ExactCapacity, ExactDebt;
    CapacityBounds(cfg, pos.supplied);
    DebtBounds(cfg, pos.borrowed);
    assert (Max(pos.supplied, 0) + Max(pos.borrowed, 0)) * FINE * BPS
        == Max(pos.supplied, 0) * FINE * BPS + Max(pos.borrowed, 0) * FINE * BPS;
  }

  lemma PricesAreNormal(acc: Totals, cfg: AssetConfig, pos: AssetPosition)
    requires AddAsset(acc, cfg, pos).Ok?
    ensures CollateralOf(cfg, 0).Ok? && DebtOf(cfg, 0).Ok?
    ensures CollateralOf(cfg, pos.supplied).Ok? && DebtOf(cfg, pos.borrowed).Ok?
  {
  }

  /** The summary brackets the exact totals: capacity from below, debt from above, by no more than the
      rounding room in all. */
  lemma {:induction false} SummaryBounds(b: Book, u: User, list: seq<AssetKey>)
    requires SaneAssets(b, list) && Summed(b, u, list).Ok?
    ensures var t := Summed(b, u, list).value;
            && t.capacity >= 0 && t.debt >= 0
            && t.capacity * UNIT <= CapacityAlong(b, u, list)
            && DebtAlong(b, u, list) <= t.debt * UNIT
            && (CapacityAlong(b, u, list) - t.capacity * UNIT) + (t.debt * UNIT - DebtAlong(b, u, list)) <= RoomAlong(b, u, list)
  {
    hide AddAsset, RoundingRoom, ExactCapacity, ExactDebt, SaneConfig;
    if list == [] {
    } else {
      var front, a := list[..|list| - 1], list[|list| - 1];
      assert a in list;
      SummaryBounds(b, u, front);
      AssetBounds(Summed(b, u, front).value, b.configs[a], PositionOf(b, a, u));
    }
  }

  /** A position the summary calls healthy is healthy in exact rational terms, for any list of assets with
      non-negative prices and any mix of decimals. Conversely, a position whose exact margin exceeds the
      rounding room is called healthy. */
  lemma HealthyIsExact(b: Book, u: User, list: seq<AssetKey>)
    requires SaneAssets(b, list) && Summed(b, u, list).Ok?
    ensures IsHealthy(Summed(b, u, list).value) ==> CapacityAlong(b, u, list) >= DebtAlong(b, u, list)
    ensures CapacityAlong(b, u, list) - DebtAlong(b, u, list) >= RoomAlong(b, u, list) ==> IsHealthy(Summed(b, u, list).value)
  {
    SummaryBounds(b, u, list);
  }

  // ---------------------------------------------------------------------------
  // Totals
  // ---------------------------------------------------------------------------

  /** Balances of one asset over all its users. */
  ghost function Of(b: Balances, a: AssetKey): map<(AssetKey, User), int> {
    map k | k in b && k.0 == a :: b[k]
  }

  ghost predicate Exact(b: Balances, t: PerAsset) {
    && (forall a, u :: BalanceOf(b, a, u) >= 0)
    && (forall a :: TotalIn(t, a) == Sum(Of(b, a)))
  }

  ghost predicate Consistent(b: Book) {
    Exact(b.supply, b.totalSupply) && Exact(b.debt, b.totalDebt)
  }

  /** Moving one balance and its asset's total by the same amount keeps them exact. */
  lemma MoveKeepsExact(b: Balances, t: PerAsset, a: AssetKey, u: User, balance: i128, total: i128)
    requires Exact(b, t) && balance >= 0
    requires total == TotalIn(t, a) + balance - BalanceOf(b, a, u)
    ensures Exact(b[(a, u) := balance], t[a := total])
  {
    var b', t' := b[(a, u) := balance], t[a := total];
    assert Of(b', a) == Of(b, a)[(a, u) := balance];
    SumPut(Of(b, a), (a, u), balance);
    assert forall c :: c != a ==> Of(b', c) == Of(b, c);
    assert forall c, v :: BalanceOf(b', c, v) == if c == a && v == u then balance else BalanceOf(b, c, v);
    assert forall c :: TotalIn(t', c) == if c == a then total else TotalIn(t, c);
  }

  lemma BalanceWithinTotal(b: Balances, t: PerAsset, a: AssetKey, u: User)
    requires Exact(b, t)
    ensures 0 <= BalanceOf(b, a, u) <= TotalIn(t, a)
  {
    forall k | k in Of(b, a) ensures Of(b, a)[k] >= 0 {
      assert BalanceOf(b, k.0, k.1) == b[k];
    }
    SumAtLeast(Of(b, a), (a, u));
  }

  datatype Op =
    | Register(asset: AssetKey, cfg: AssetConfig)
    | Reprice(asset: AssetKey, price: i128)
    | Deposit(user: User, asset: AssetKey, amount: i128)
    | Withdraw(user: User, asset: AssetKey, amount: i128)
    | Borrow(user: User, asset: AssetKey, amount: i128)
    | Repay(user: User, asset: AssetKey, amount: i128)

  function Attempt(b: Book, op: Op): Result<Book, CrossAssetError> {
    match op
    case Register(a, cfg) => Registered(b, a, cfg)
    case Reprice(a, price) => Repriced(b, a, price)
    case Deposit(u, a, x) => Deposited(b, u, a, x)
    case Withdraw(u, a, x) => Withdrawn(b, u, a, x)
    case Borrow(u, a, x) => Borrowed(b, u, a, x)
    case Repay(u, a, x) => Repaid(b, u, a, x)
  }

  function Run(b: Book, ops: seq<Op>): Book {
    if ops == [] then b
    else
      var m := Run(b, ops[..|ops| - 1]);
      match Attempt(m, ops[|ops| - 1])
      case Ok(m') => m'
      case Err(_) => m
  }

  lemma AttemptKeepsConsistent(b: Book, op: Op)
    requires Consistent(b) && Attempt(b, op).Ok?
    ensures Consistent(Attempt(b, op).value)
  {
    hide Exact, Summed;
    var b' := Attempt(b, op).value;
    match op {
      case Register(_, _) =>
      case Reprice(_, _) =>
      case Deposit(u, a, _) =>
        BalanceWithinTotal(b.supply, b.totalSupply, a, u);
        MoveKeepsExact(b.supply, b.totalSupply, a, u, b'.supply[(a, u)], b'.totalSupply[a]);
      case Withdraw(u, a, _) =>
        BalanceWithinTotal(b.supply, b.totalSupply, a, u);
        MoveKeepsExact(b.supply, b.totalSupply, a, u, b'.supply[(a, u)], b'.totalSupply[a]);
      case Borrow(u, a, _) =>
        BalanceWithinTotal(b.debt, b.totalDebt, a, u);
        MoveKeepsExact(b.debt, b.totalDebt, a, u, b'.debt[(a, u)], b'.totalDebt[a]);
      case Repay(u, a, _) =>
        BalanceWithinTotal(b.debt, b.totalDebt, a, u);
        MoveKeepsExact(b.debt, b.totalDebt, a, u, b'.debt[(a, u)], b'.totalDebt[a]);
    }
  }

  lemma EmptyIsConsistent()
    ensures Consistent(Book(map[], [], map[], map[], map[], map[]))
  {
    var none: Balances := map[];
    assert forall a :: Of(none, a) == map[];
  }

  /** Over any run, each asset's totals equal the sums of its users' balances. */
  lemma {:induction false} RunKeepsConsistent(b: Book, ops: seq<Op>)
    requires Consistent(b)
    ensures Consistent(Run(b, ops))
  {
    hide Attempt, Consistent;
    if ops == [] {
    } else {
      RunKeepsConsistent(b, ops[..|ops| - 1]);
      if Attempt(Run(b, ops[..|ops| - 1]), ops[|ops| - 1]).Ok? {
        AttemptKeepsConsistent(Run(b, ops[..|ops| - 1]), ops[|ops| - 1]);
      }
    }
  }

  /** What each operation moves, and that it moves nothing else. */
  ghost function Change(b: Book, op: Op): int {
    match op
    case Deposit(_, _, x) => x
    case Withdraw(_, _, x) => -(x as int)
    case Borrow(_, _, x) => x
    case Repay(u, a, x) => -Min(x, BalanceOf(b.debt, a, u))
    case _ => 0
  }

  /** The user's balances of one asset, before and after. */
  ghost predicate Moves(b: Book, b': Book, c: AssetKey, v: User, supplied: int, borrowed: int) {
    && BalanceOf(b'.supply, c, v) - BalanceOf(b.supply, c, v) == supplied
    && BalanceOf(b'.debt, c, v) - BalanceOf(b.debt, c, v) == borrowed
  }

  lemma OperationsMoveOneBalance(b: Book, op: Op, c: AssetKey, v: User)
    requires Consistent(b) && Attempt(b, op).Ok?
    ensures var hit := (op.Deposit? || op.Withdraw? || op.Borrow? || op.Repay?) && op.asset == c && op.user == v;
            Moves(b, Attempt(b, op).value, c, v,
                  if hit && (op.Deposit? || op.Withdraw?) then Change(b, op) else 0,
                  if hit && (op.Borrow? || op.Repay?) then Change(b, op) else 0)
  {
    hide Consistent, Deposited, Withdrawn, Borrowed, Repaid;
    match op {
      case Register(_, _) =>
      case Reprice(_, _) =>
      case Deposit(u, a, x) => SupplyMoves(b, u, a, x, c, v);
      case Withdraw(u, a, x) => SupplyMoves(b, u, a, x, c, v);
      case Borrow(u, a, x) => BorrowMoves(b, u, a, x, c, v);
      case Repay(u, a, x) => RepayMoves(b, u, a, x, c, v);
    }
  }

  lemma SupplyMoves(b: Book, u: User, a: AssetKey, x: i128, c: AssetKey, v: User)
    ensures var moved: int := if (c, v) == (a, u) then x else 0;
            && (Deposited(b, u, a, x).Ok? ==> Moves(b, Deposited(b, u, a, x).value, c, v, moved, 0))
            && (Withdrawn(b, u, a, x).Ok? ==> Moves(b, Withdrawn(b, u, a, x).value, c, v, -moved, 0))
  {
    hide BalanceOf;
    if Deposited(b, u, a, x).Ok? {
      ReadAfterWrite(b.supply, a, u, BalanceOf(b.supply, a, u) + x, c, v);
    }
    if Withdrawn(b, u, a, x).Ok? {
      ReadAfterWrite(b.supply, a, u, BalanceOf(b.supply, a, u) - x, c, v);
    }
  }

  lemma BorrowMoves(b: Book, u: User, a: AssetKey, x: i128, c: AssetKey, v: User)
    requires Borrowed(b, u, a, x).Ok?
    ensures Moves(b, Borrowed(b, u, a, x).value, c, v, 0, if (c, v) == (a, u) then x else 0)
  {
    hide Summed, IsHealthy, BalanceOf;
    ReadAfterWrite(b.debt, a, u, BalanceOf(b.debt, a, u) + x, c, v);
  }

  lemma RepayMoves(b: Book, u: User, a: AssetKey, x: i128, c: AssetKey, v: User)
    requires Repaid(b, u, a, x).Ok?
    ensures Moves(b, Repaid(b, u, a, x).value, c, v, 0, if (c, v) == (a, u) then -Min(x, BalanceOf(b.debt, a, u)) else 0)
  {
    hide BalanceOf;
    ReadAfterWrite(b.debt, a, u, BalanceOf(b.debt, a, u) - Min(x, BalanceOf(b.debt, a, u)), c, v);
  }

  lemma ReadAfterWrite(b: Balances, a: AssetKey, u: User, balance: i128, c: AssetKey, v: User)
    ensures BalanceOf(b[(a, u) := balance], c, v) == if (c, v) == (a, u) then balance else BalanceOf(b, c, v)
  {
  }

  /** The registry: the list names the configured assets, once each, and their settings are in range. */
  ghost predicate Registry(b: Book) {
    && Distinct(b.assets)
    && (forall a :: a in b.assets <==> a in b.configs)
    && (forall a :: a in b.configs ==> SaneConfig(b.configs[a]))
  }

  /** Registration does not check the price, so it can put a negative one in the registry. */
  ghost predicate PriceFits(b: Book, op: Op) {
    op.Register? && Attempt(b, op).Ok? ==> op.cfg.price >= 0
  }

  ghost predicate OrderedThroughout(b: Book, ops: seq<Op>) {
    forall i :: 0 <= i <= |ops| ==> Registry(Run(b, ops[..i]))
  }

  ghost predicate PricesFitThroughout(b: Book, ops: seq<Op>) {
    forall i :: 0 <= i < |ops| ==> PriceFits(Run(b, ops[..i]), ops[i])
  }

  /** The registry stays in order at every point of a run, so that the exact totals above range over every
      registered asset, if and only if the run registers no negative price. */
  lemma {:induction false} RunKeepsRegistry(b: Book, ops: seq<Op>)
    requires Registry(b)
    ensures OrderedThroughout(b, ops) <==> PricesFitThroughout(b, ops)
  {
    hide Registry, Attempt;
    if ops == [] {
    } else {
      hide OrderedThroughout, PricesFitThroughout;
      var front, op := ops[..|ops| - 1], ops[|ops| - 1];
      RunKeepsRegistry(b, front);
      ThroughoutSplits(b, ops);
      var m := Run(b, front);
      if OrderedThroughout(b, front) {
        LastIsOrdered(b, front);
        AttemptKeepsRegistry(m, op);
      }
    }
  }

  lemma ThroughoutSplits(b: Book, ops: seq<Op>)
    requires ops != []
    ensures var front := ops[..|ops| - 1];
            && (OrderedThroughout(b, ops) <==> OrderedThroughout(b, front) && Registry(Run(b, ops)))
            && (PricesFitThroughout(b, ops) <==> PricesFitThroughout(b, front) && PriceFits(Run(b, front), ops[|ops| - 1]))
  {
    hide Registry, PriceFits, Run;
    var front := ops[..|ops| - 1];
    assert ops[..|ops|] == ops;
    assert forall i :: 0 <= i <= |front| ==> front[..i] == ops[..i];
    if OrderedThroughout(b, ops) {
      assert forall i :: 0 <= i <= |front| ==> Registry(Run(b, ops[..i]));
      assert Registry(Run(b, ops[..|ops|]));
    }
    if PricesFitThroughout(b, ops) {
      assert forall i :: 0 <= i < |front| ==> PriceFits(Run(b, ops[..i]), ops[i]);
    }
  }

  lemma LastIsOrdered(b: Book, ops: seq<Op>)
    requires OrderedThroughout(b, ops)
    ensures Registry(Run(b, ops))
  {
    assert ops[..|ops|] == ops;
  }

  lemma AttemptKeepsRegistry(b: Book, op: Op)
    requires Registry(b)
    ensures Attempt(b, op).Ok? ==> (Registry(Attempt(b, op).value) <==> PriceFits(b, op))
    ensures Attempt(b, op).Err? ==> PriceFits(b, op)
  {
    hide Summed;
    if op.Register? && Attempt(b, op).Ok? {
      assert Attempt(b, op).value.configs[op.asset] == op.cfg;
    }
  }

  /** A registration succeeds exactly for a new asset with at most 38 decimals and a factor of at most one. It
      lists the asset last, with the settings given, and touches no balance. */
  lemma RegisterIff(b: Book, a: AssetKey, cfg: AssetConfig)
    ensures Registered(b, a, cfg).Ok? <==> a !in b.configs && cfg.priceDecimals <= 38 && 0 <= cfg.collateralFactorBps <= 10_000
    ensures Registered(b, a, cfg).Ok? ==>
              var r := Registered(b, a, cfg).value;
              && r.assets == b.assets + [a] && a in r.configs && r.configs[a] == cfg
              && (forall c :: c != a ==> (c in r.configs <==> c in b.configs) && (c in b.configs ==> r.configs[c] == b.configs[c]))
              && r == b.(configs := r.configs, assets := r.assets)
  {
  }

  /** A price update succeeds exactly for a positive price of a registered asset, and changes that price only. */
  lemma RepriceIff(b: Book, a: AssetKey, price: i128)
    ensures Repriced(b, a, price).Ok? <==> price > 0 && a in b.configs
    ensures Repriced(b, a, price).Ok? ==>
              var r := Repriced(b, a, price).value;
              && r.configs.Keys == b.configs.Keys && r.configs[a].price == price
              && r.configs[a].(price := 0) == b.configs[a].(price := 0)
              && (forall c :: c in b.configs && c != a ==> r.configs[c] == b.configs[c])
              && r == b.(configs := r.configs)
  {
  }

  /** In a consistent book, deposits succeed exactly for positive amounts of a registered asset whose total
      still fits, and withdrawals exactly for positive amounts that are there, healthy or not. */
  lemma SupplyIff(b: Book, u: User, a: AssetKey, amount: i128)
    requires Consistent(b)
    ensures Deposited(b, u, a, amount).Ok? <==>
            amount > 0 && a in b.configs && TotalIn(b.totalSupply, a) + amount <= I128_MAX
    ensures Withdrawn(b, u, a, amount).Ok? <==> 0 < amount <= BalanceOf(b.supply, a, u)
  {
    BalanceWithinTotal(b.supply, b.totalSupply, a, u);
    hide Exact;
  }

  /** The book with a debt and its total raised. */
  function Owing(b: Book, u: User, a: AssetKey, amount: i128): Book
    requires InI128(BalanceOf(b.debt, a, u) + amount) && InI128(TotalIn(b.totalDebt, a) + amount)
  {
    b.(debt := b.debt[(a, u) := BalanceOf(b.debt, a, u) + amount],
       totalDebt := b.totalDebt[a := TotalIn(b.totalDebt, a) + amount])
  }

  /** The summary of a user over all assets is computable, and shows no debt or enough capacity for it. */
  ghost predicate Affordable(b: Book, u: User) {
    var summary := Summed(b, u, b.assets);
    summary.Ok? && (summary.value.debt == 0 || summary.value.capacity >= summary.value.debt)
  }

  /** A borrow succeeds exactly for a positive amount of a registered asset that may be borrowed, whose total
      still fits, when the summary with the new debt is computable and healthy. */
  lemma BorrowIff(b: Book, u: User, a: AssetKey, amount: i128)
    requires Consistent(b)
    ensures Borrowed(b, u, a, amount).Ok? <==>
            && amount > 0 && a in b.configs && b.configs[a].canBorrow
            && BalanceOf(b.debt, a, u) + amount <= I128_MAX && TotalIn(b.totalDebt, a) + amount <= I128_MAX
            && Affordable(Owing(b, u, a, amount), u)
  {
    BalanceWithinTotal(b.debt, b.totalDebt, a, u);
    hide Consistent, Summed, BalanceOf, TotalIn;
  }

  /** Every operation touches only its own maps. */
  lemma OperationsStayApart(b: Book, op: Op)
    requires Attempt(b, op).Ok?
    ensures var r := Attempt(b, op).value;
            && (op.Deposit? || op.Withdraw? ==> r == b.(supply := r.supply, totalSupply := r.totalSupply))
            && (op.Borrow? || op.Repay? ==> r == b.(debt := r.debt, totalDebt := r.totalDebt))
  {
    hide Summed;
  }

  /** In a consistent book the clamp of a repayment never fires and its subtractions never abort. */
  lemma RepayClampNeverFires(b: Book, u: User, a: AssetKey, amount: i128)
    requires Consistent(b) && amount > 0
    ensures Repaid(b, u, a, amount).Ok?
    ensures TotalIn(Repaid(b, u, a, amount).value.totalDebt, a)
            == TotalIn(b.totalDebt, a) - Min(amount, BalanceOf(b.debt, a, u))
  {
    BalanceWithinTotal(b.debt, b.totalDebt, a, u);
  }

  /** A borrow that succeeds leaves the borrower's exact weighted collateral at least the exact debt. */
  lemma BorrowLeavesSolvent(b: Book, u: User, a: AssetKey, amount: i128)
    requires Borrowed(b, u, a, amount).Ok? && SaneAssets(b, b.assets)
    ensures var b' := Borrowed(b, u, a, amount).value;
            && BalanceOf(b'.debt, a, u) == BalanceOf(b.debt, a, u) + amount
            && CapacityAlong(b', u, b'.assets) >= DebtAlong(b', u, b'.assets)
  {
    var b' := Borrowed(b, u, a, amount).value;
    HealthyIsExact(b', u, b'.assets);
  }
}
