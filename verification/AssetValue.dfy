/** Decimal normalisation and the position summary of the cross-asset module
    (stellar-lend/contracts/hello-world/src/cross_asset.rs). */
module AssetValue {
  import opened Numeric

  const INTERNAL_DECIMALS: nat := 18
  const MAX_DECIMALS: nat := 38
  const BPS: int := 10_000
  /** One in the internal scale, `pow10_checked(INTERNAL_DECIMALS)`. */
  const ONE: int := 1_000_000_000_000_000_000
  /** Twenty decimals more: the distance from the internal scale to the finest feed. */
  const FINE: int := 100_000_000_000_000_000_000
  /** One unit of value in the exact scale: 38 decimals and basis points. */
  const UNIT: int := 1_000_000_000_000_000_000_000_000_000_000_000_000_000_000

  datatype CrossAssetError =
    | AssetNotFound
    | AssetAlreadyExists
    | InvalidAmount
    | BorrowNotAllowed
    | InsufficientCollateral
    | Overflow
    | InvalidDecimals
    | InvalidCollateralFactor
    | Panicked

  datatype AssetConfig = AssetConfig(
    collateralFactorBps: i128,
    canCollateralize: bool,
    canBorrow: bool,
    price: i128,
    priceDecimals: nat)

  datatype AssetPosition = AssetPosition(supplied: i128, borrowed: i128)

  datatype Totals = Totals(collateral: i128, debt: i128, capacity: i128)

  // ---------------------------------------------------------------------------
  // Powers of ten
  // ---------------------------------------------------------------------------

  function Pow10(n: nat): (p: int)
    ensures p >= 1
  {
    if n == 0 then 1 else 10 * Pow10(n - 1)
  }

  lemma {:induction false} Pow10Add(m: nat, n: nat)
    ensures Pow10(m + n) == Pow10(m) * Pow10(n)
  {
    if m == 0 {
    } else {
      Pow10Add(m - 1, n);
      assert 10 * (Pow10(m - 1) * Pow10(n)) == (10 * Pow10(m - 1)) * Pow10(n);
    }
  }

  lemma {:induction false} Pow10Grows(m: nat, n: nat)
    requires m <= n
    ensures Pow10(m) <= Pow10(n)
  {
    if m >= n {
    } else {
      Pow10Grows(m, n - 1);
    }
  }

  /** `pow10_checked`: the loop stops at the first overflow, so it answers exactly when the power fits. */
  method Pow10Loop(exp: nat) returns (r: Option<i128>)
    ensures r == Checked(Pow10(exp))
  {
    var acc: i128 := 1;
    for i := 0 to exp
      invariant acc == Pow10(i)
    {
      Pow10Grows(i + 1, exp);
      if !InI128(acc * 10) {
        return None;
      }
      acc := acc * 10;
    }
    return Some(acc);
  }

  lemma ScalesArePowers()
    ensures Pow10(INTERNAL_DECIMALS) == ONE && Pow10(MAX_DECIMALS - INTERNAL_DECIMALS) == FINE
    ensures ONE * FINE * BPS == UNIT
  {
    assert Pow10(3) == 1000;
    assert Pow10(6) == 1_000_000 by { Pow10Add(3, 3); }
    assert Pow10(12) == 1_000_000_000_000 by { Pow10Add(6, 6); }
    assert Pow10(18) == ONE by { Pow10Add(12, 6); }
    assert Pow10(20) == 10 * Pow10(19);
  }

  // ---------------------------------------------------------------------------
  // Prices
  // ---------------------------------------------------------------------------

  function NormalizePrice(raw: i128, decimals: nat): Option<i128> {
    if decimals == INTERNAL_DECIMALS then Some(raw)
    else if decimals < INTERNAL_DECIMALS then
      match Checked(Pow10(INTERNAL_DECIMALS - decimals))
      case Some(scale) => Checked(raw * scale)
      case None => None
    else
      match Checked(Pow10(decimals - INTERNAL_DECIMALS))
      case Some(scale) => Checked(TruncDiv(raw, scale))
      case None => None
  }

  function NormalizePriceCeil(raw: i128, decimals: nat): Option<i128> {
    if decimals <= INTERNAL_DECIMALS then NormalizePrice(raw, decimals)
    else
      match Checked(Pow10(decimals - INTERNAL_DECIMALS))
      case Some(scale) =>
        (match Checked(raw + (scale - 1))
         case Some(adjusted) => Checked(TruncDiv(adjusted, scale))
         case None => None)
      case None => None
  }

  /** Scale of a price with the given decimals against 38 of them. */
  function Lift(decimals: nat): int {
    if decimals <= MAX_DECIMALS then Pow10(MAX_DECIMALS - decimals) else 0
  }

  /** A feed of at most eighteen decimals is scaled up exactly, both ways. */
  lemma CoarseFormsAreExact(raw: i128, decimals: nat)
    requires raw >= 0 && decimals <= 18
    ensures NormalizePriceCeil(raw, decimals) == NormalizePrice(raw, decimals)
    ensures NormalizePrice(raw, decimals).Some? ==>
              var price := NormalizePrice(raw, decimals).value;
              0 <= price && price * FINE == raw * Lift(decimals)
  {
    ScalesArePowers();
    PowZero();
    Pow10Add(18 - decimals, 20);
    var scale := Pow10(18 - decimals);
    assert NormalizePrice(raw, decimals).Some? ==> NormalizePrice(raw, decimals).value == raw * scale;
    assert Lift(decimals) == scale * FINE;
    hide NormalizePrice, NormalizePriceCeil, Pow10, Lift;
    MulMono(0, raw, scale);
    Regroup(raw, scale, FINE);
  }

  /** A finer one is floored and raised by the difference. */
  lemma FineForms(raw: i128, decimals: nat)
    requires raw >= 0 && 18 < decimals <= MAX_DECIMALS
    ensures var scale := Pow10(decimals - 18);
            && scale > 0 && Lift(decimals) > 0 && scale * Lift(decimals) == FINE
            && (NormalizePrice(raw, decimals).Some? ==> NormalizePrice(raw, decimals).value == TruncDiv(raw, scale))
            && (NormalizePriceCeil(raw, decimals).Some? ==>
                  NormalizePriceCeil(raw, decimals).value == TruncDiv(raw + (scale - 1), scale))
  {
    FineScale(decimals);
    hide Pow10, Lift, TruncDiv;
  }

  lemma FineScale(decimals: nat)
    requires 18 < decimals <= MAX_DECIMALS
    ensures Pow10(decimals - 18) > 0 && Lift(decimals) > 0 && Pow10(decimals - 18) * Lift(decimals) == FINE
  {
    ScalesArePowers();
    Pow10Add(decimals - 18, 38 - decimals);
    hide Pow10;
  }

  /** They are the floor and the ceiling of the exact price at eighteen decimals. */
  lemma NormalFormsAreFloorAndCeiling(raw: i128, decimals: nat)
    requires raw >= 0 && decimals <= MAX_DECIMALS
    ensures NormalizePrice(raw, decimals).Some? ==>
              var lo := NormalizePrice(raw, decimals).value;
              0 <= lo && lo * FINE <= raw * Lift(decimals) < (lo + 1) * FINE
    ensures NormalizePriceCeil(raw, decimals).Some? ==>
              var hi := NormalizePriceCeil(raw, decimals).value;
              0 <= hi && (hi - 1) * FINE < raw * Lift(decimals) <= hi * FINE
  {
    if decimals <= 18 {
      CoarseFormsAreExact(raw, decimals);
      hide NormalizePrice, NormalizePriceCeil, Lift;
    } else {
      FineForms(raw, decimals);
      hide NormalizePrice, NormalizePriceCeil, Lift, TruncDiv, Pow10;
      FloorOfScale(raw, Pow10(decimals - 18), Lift(decimals));
      CeilingOfScale(raw, Pow10(decimals - 18), Lift(decimals));
    }
  }

  /** The two normal forms bracket the exact price, and are one unit of the eighteenth decimal apart at
      most; with eighteen decimals or fewer both are exact. */
  lemma NormalFormsBracket(raw: i128, decimals: nat)
    requires raw >= 0 && decimals <= MAX_DECIMALS
    requires NormalizePrice(raw, decimals).Some? && NormalizePriceCeil(raw, decimals).Some?
    ensures var lo := NormalizePrice(raw, decimals).value;
            var hi := NormalizePriceCeil(raw, decimals).value;
            && 0 <= lo && 0 <= hi
            && lo * FINE <= raw * Lift(decimals) <= hi * FINE
            && raw * Lift(decimals) - (if decimals <= 18 then 0 else FINE) <= lo * FINE
            && hi * FINE <= raw * Lift(decimals) + (if decimals <= 18 then 0 else FINE)
  {
    NormalFormsAreFloorAndCeiling(raw, decimals);
    if decimals <= 18 {
      CoarseFormsAreExact(raw, decimals);
    }
    hide NormalizePrice, NormalizePriceCeil, Lift;
  }

  lemma FloorOfScale(raw: nat, scale: nat, lift: nat)
    requires scale > 0 && lift > 0 && scale * lift == FINE
    ensures 0 <= TruncDiv(raw, scale)
    ensures TruncDiv(raw, scale) * FINE <= raw * lift < (TruncDiv(raw, scale) + 1) * FINE
  {
    var q := raw / scale;
    FloorDivAtLeast(raw, scale, 0);
    FloorDiv(raw, scale);
    MulMono(q * scale, raw, lift);
    MulMono(raw + 1, (q + 1) * scale, lift);
    Regroup(q, scale, lift);
    Regroup(q + 1, scale, lift);
    assert (raw + 1) * lift == raw * lift + lift;
  }

  lemma CeilingOfScale(raw: nat, scale: nat, lift: nat)
    requires scale > 0 && lift > 0 && scale * lift == FINE
    ensures 0 <= TruncDiv(raw + (scale - 1), scale)
    ensures (TruncDiv(raw + (scale - 1), scale) - 1) * FINE < raw * lift <= TruncDiv(raw + (scale - 1), scale) * FINE
  {
    var q := (raw + (scale - 1)) / scale;
    FloorDivAtLeast(raw + (scale - 1), scale, 0);
    FloorDiv(raw + (scale - 1), scale);
    assert (q - 1) * scale == q * scale - scale;
    MulMono((q - 1) * scale + 1, raw, lift);
    MulMono(raw, q * scale, lift);
    Regroup(q - 1, scale, lift);
    Regroup(q, scale, lift);
    assert ((q - 1) * scale + 1) * lift == (q - 1) * scale * lift + lift;
  }

  /** They exist exactly when they fit: a coarser feed scaled up, a finer one rounded up. */
  lemma NormalFormsExistIff(raw: i128, decimals: nat)
    requires raw >= 0 && decimals <= MAX_DECIMALS
    ensures NormalizePrice(raw, decimals).Some? <==> decimals > 18 || raw * Pow10(18 - decimals) <= I128_MAX
    ensures NormalizePriceCeil(raw, decimals).Some? <==>
            if decimals > 18 then raw + Pow10(decimals - 18) - 1 <= I128_MAX else raw * Pow10(18 - decimals) <= I128_MAX
  {
    ScalesArePowers();
    PowZero();
    hide Pow10;
    if decimals <= 18 {
      Pow10Grows(18 - decimals, 18);
      MulMono(0, raw, Pow10(18 - decimals));
    } else {
      var scale := Pow10(decimals - 18);
      Pow10Grows(decimals - 18, 20);
      QuotientWithin(raw, scale);
      QuotientWithin(raw + (scale - 1), scale);
    }
  }

  lemma QuotientWithin(a: nat, b: nat)
    requires b > 0
    ensures 0 <= TruncDiv(a, b) <= a
  {
    MulMono(1, b, a + 1);
    FloorDivAtLeast(a, b, 0);
    FloorDivAtMost(a, b, a);
  }

  lemma PowZero()
    ensures Pow10(0) == 1
  {
  }

  lemma Regroup(x: int, y: int, z: int)
    ensures x * y * z == x * (y * z)
  {
  }

  // ---------------------------------------------------------------------------
  // The summary
  // ---------------------------------------------------------------------------

  /** Collateral value and borrowing capacity of one asset. */
  function CollateralOf(cfg: AssetConfig, supplied: i128): Result<(i128, i128), CrossAssetError> {
    var price :- NormalizePrice(cfg.price, cfg.priceDecimals).OkOr(Overflow);
    if supplied > 0 && cfg.canCollateralize then
      var product :- Checked(supplied * price).OkOr(Overflow);
      var value :- Checked(TruncDiv(product, ONE)).OkOr(Overflow);
      var scaled :- Checked(value * cfg.collateralFactorBps).OkOr(Overflow);
      var capacity :- Checked(TruncDiv(scaled, BPS)).OkOr(Overflow);
      Ok((value, capacity))
    else Ok((0, 0))
  }

  function DebtOf(cfg: AssetConfig, borrowed: i128): Result<i128, CrossAssetError> {
    var price :- NormalizePriceCeil(cfg.price, cfg.priceDecimals).OkOr(Overflow);
    if borrowed > 0 then
      var product :- Checked(borrowed * price).OkOr(Overflow);
      var raised :- Checked(product + ONE).OkOr(Panicked);
      Checked(TruncDiv(raised - 1, ONE)).OkOr(Overflow)
    else Ok(0)
  }

  /** One turn of the summary loop. */
  function AddAsset(acc: Totals, cfg: AssetConfig, pos: AssetPosition): Result<Totals, CrossAssetError> {
    var (value, capacity) :- CollateralOf(cfg, pos.supplied);
    var c :- Checked(acc.collateral + value).OkOr(Overflow);
    var k :- Checked(acc.capacity + capacity).OkOr(Overflow);
    var debt :- DebtOf(cfg, pos.borrowed);
    var d :- Checked(acc.debt + debt).OkOr(Overflow);
    Ok(Totals(c, d, k))
  }

  /** The summary takes an asset exactly when its price normalises both ways, its products fit and the three
      sums fit; it then adds the floored value, the floored capacity and the raised debt, each to its own total. */
  lemma AssetAddsIff(acc: Totals, cfg: AssetConfig, pos: AssetPosition)
    requires SaneConfig(cfg) && acc.collateral >= 0 && acc.debt >= 0 && acc.capacity >= 0
    ensures AddAsset(acc, cfg, pos).Ok? <==>
            && CollateralOf(cfg, pos.supplied).Ok? && DebtOf(cfg, pos.borrowed).Ok?
            && acc.collateral + CollateralOf(cfg, pos.supplied).value.0 <= I128_MAX
            && acc.capacity + CollateralOf(cfg, pos.supplied).value.1 <= I128_MAX
            && acc.debt + DebtOf(cfg, pos.borrowed).value <= I128_MAX
    ensures AddAsset(acc, cfg, pos).Ok? ==>
              var t := AddAsset(acc, cfg, pos).value;
              && t.collateral - acc.collateral == CollateralOf(cfg, pos.supplied).value.0
              && t.capacity - acc.capacity == CollateralOf(cfg, pos.supplied).value.1
              && t.debt - acc.debt == DebtOf(cfg, pos.borrowed).value
  {
    if CollateralOf(cfg, pos.supplied).Ok? && DebtOf(cfg, pos.borrowed).Ok? {
      CollateralIsSigned(cfg, pos.supplied);
      DebtIsSigned(cfg, pos.borrowed);
    }
    hide CollateralOf, DebtOf;
  }

  /** What an asset adds to the collateral: nothing unless supplied and usable, else two floors of the price. */
  lemma CollateralIff(cfg: AssetConfig, supplied: i128)
    requires SaneConfig(cfg)
    ensures var lo := NormalizePrice(cfg.price, cfg.priceDecimals);
            var counts := supplied > 0 && cfg.canCollateralize;
            && (CollateralOf(cfg, supplied).Ok? <==>
                  && lo.Some?
                  && (counts ==> supplied * lo.value <= I128_MAX
                                 && supplied * lo.value / 1_000_000_000_000_000_000 * cfg.collateralFactorBps <= I128_MAX))
            && (CollateralOf(cfg, supplied).Ok? ==>
                  var value := if counts then supplied * lo.value / 1_000_000_000_000_000_000 else 0;
                  CollateralOf(cfg, supplied).value == (value, if counts then value * cfg.collateralFactorBps / 10_000 else 0))
  {
    var lo := NormalizePrice(cfg.price, cfg.priceDecimals);
    if lo.Some? {
      NormalFormsAreFloorAndCeiling(cfg.price, cfg.priceDecimals);
      hide NormalizePrice, Lift;
      if supplied > 0 {
        MulMono(0, lo.value, supplied);
        QuotientWithin(supplied * lo.value, ONE);
        var value := supplied * lo.value / ONE;
        MulMono(0, cfg.collateralFactorBps, value);
        QuotientWithin(value * cfg.collateralFactorBps, BPS);
      }
    }
  }

  lemma CollateralIsSigned(cfg: AssetConfig, supplied: i128)
    requires SaneConfig(cfg) && CollateralOf(cfg, supplied).Ok?
    ensures CollateralOf(cfg, supplied).value.0 >= 0 && CollateralOf(cfg, supplied).value.1 >= 0
  {
    CollateralIff(cfg, supplied);
    var lo := NormalizePrice(cfg.price, cfg.priceDecimals).value;
    NormalFormsAreFloorAndCeiling(cfg.price, cfg.priceDecimals);
    hide CollateralOf, NormalizePrice;
    if supplied > 0 {
      MulMono(0, lo, supplied);
      FloorDivAtLeast(supplied * lo, ONE, 0);
      var value := supplied * lo / ONE;
      MulMono(0, cfg.collateralFactorBps, value);
      FloorDivAtLeast(value * cfg.collateralFactorBps, BPS, 0);
    }
  }

  /** What an asset adds to the debt: the ceiling of what is owed at the price rounded up. */
  lemma DebtIff(cfg: AssetConfig, borrowed: i128)
    requires SaneConfig(cfg)
    ensures var hi := NormalizePriceCeil(cfg.price, cfg.priceDecimals);
            && (DebtOf(cfg, borrowed).Ok? <==>
                  hi.Some? && (borrowed > 0 ==> borrowed * hi.value + 1_000_000_000_000_000_000 <= I128_MAX))
            && (DebtOf(cfg, borrowed).Ok? && borrowed <= 0 ==> DebtOf(cfg, borrowed).value == 0)
            && (DebtOf(cfg, borrowed).Ok? && borrowed > 0 ==>
                  var debt: int := DebtOf(cfg, borrowed).value;
                  (debt - 1) * 1_000_000_000_000_000_000 < borrowed * hi.value <= debt * 1_000_000_000_000_000_000)
  {
    var hi := NormalizePriceCeil(cfg.price, cfg.priceDecimals);
    if hi.Some? {
      NormalFormsAreFloorAndCeiling(cfg.price, cfg.priceDecimals);
      hide NormalizePriceCeil;
      if borrowed > 0 {
        MulMono(0, hi.value, borrowed);
        QuotientWithin(borrowed * hi.value + ONE - 1, ONE);
        FloorDiv(borrowed * hi.value + ONE - 1, ONE);
      }
    }
  }

  lemma DebtIsSigned(cfg: AssetConfig, borrowed: i128)
    requires SaneConfig(cfg) && DebtOf(cfg, borrowed).Ok?
    ensures DebtOf(cfg, borrowed).value >= 0
  {
    DebtIff(cfg, borrowed);
    NormalFormsAreFloorAndCeiling(cfg.price, cfg.priceDecimals);
    hide DebtOf, NormalizePriceCeil;
    if borrowed > 0 {
      MulMono(0, NormalizePriceCeil(cfg.price, cfg.priceDecimals).value, borrowed);
    }
  }

  predicate IsHealthy(t: Totals) {
    t.debt == 0 || t.capacity >= t.debt
  }

  // ---------------------------------------------------------------------------
  // Exact values
  // ---------------------------------------------------------------------------

  ghost predicate SaneConfig(cfg: AssetConfig) {
    && cfg.priceDecimals <= MAX_DECIMALS
    && 0 <= cfg.collateralFactorBps <= BPS
    && cfg.price >= 0
  }

  /** Weighted collateral, exactly. */
  function ExactCapacity(cfg: AssetConfig, supplied: i128): int {
    if supplied > 0 && cfg.canCollateralize then
      supplied * (cfg.price * Lift(cfg.priceDecimals)) * cfg.collateralFactorBps
    else 0
  }

  /** Debt, exactly. */
  function ExactDebt(cfg: AssetConfig, borrowed: i128): int {
    if borrowed > 0 then borrowed * (cfg.price * Lift(cfg.priceDecimals)) * BPS else 0
  }

  /** Room for the rounding of one asset: three units, and a unit of the eighteenth decimal per token when
      the feed has more decimals than that. */
  function RoundingRoom(cfg: AssetConfig, pos: AssetPosition): int {
    3 * UNIT
    + if cfg.priceDecimals <= 18 then 0 else (Max(pos.supplied, 0) + Max(pos.borrowed, 0)) * FINE * BPS
  }

  /** Floor of floor: capacity is at most exact, and short of it by at most two units plus the price gap. */
  lemma CapacityBounds(cfg: AssetConfig, supplied: i128)
    requires SaneConfig(cfg) && CollateralOf(cfg, supplied).Ok? && DebtOf(cfg, 0).Ok?
    ensures var (value, capacity) := CollateralOf(cfg, supplied).value;
            var slack := if cfg.priceDecimals <= 18 then 0 else Max(supplied, 0) * FINE * BPS;
            && 0 <= capacity && 0 <= value
            && capacity * UNIT <= ExactCapacity(cfg, supplied)
            && ExactCapacity(cfg, supplied) <= capacity * UNIT + 2 * UNIT + slack
  {
    if supplied > 0 && cfg.canCollateralize {
      var lo, value, capacity := CollateralUnfolds(cfg, supplied);
      NormalFormsBracket(cfg.price, cfg.priceDecimals);
      hide Lift, NormalizePrice, NormalizePriceCeil, CollateralOf, DebtOf;
      FirstFloor(supplied, lo, cfg.price * Lift(cfg.priceDecimals), if cfg.priceDecimals <= 18 then 0 else FINE, value);
      SecondFloor(value, supplied * (cfg.price * Lift(cfg.priceDecimals)),
                  if cfg.priceDecimals <= 18 then 0 else supplied * FINE, capacity, cfg.collateralFactorBps);
    }
  }

  lemma CollateralUnfolds(cfg: AssetConfig, supplied: i128) returns (lo: nat, value: nat, capacity: nat)
    requires SaneConfig(cfg) && CollateralOf(cfg, supplied).Ok? && supplied > 0 && cfg.canCollateralize
    requires NormalizePriceCeil(cfg.price, cfg.priceDecimals).Some?
    ensures NormalizePrice(cfg.price, cfg.priceDecimals) == Some(lo)
    ensures CollateralOf(cfg, supplied) == Ok((value, capacity))
    ensures value * ONE <= supplied * lo < value * ONE + ONE
    ensures capacity * BPS <= value * cfg.collateralFactorBps < capacity * BPS + BPS
  {
    var price := NormalizePrice(cfg.price, cfg.priceDecimals).value;
    NormalFormsBracket(cfg.price, cfg.priceDecimals);
    hide Lift, NormalizePrice, NormalizePriceCeil;
    lo := price;
    MulMono(0, lo, supplied);
    value := supplied * lo / ONE;
    MulMono(0, value, cfg.collateralFactorBps);
    capacity := value * cfg.collateralFactorBps / BPS;
  }

  /** The value floor, in the exact scale: short by at most one and the price gap. */
  lemma FirstFloor(s: nat, lo: nat, exact: nat, gap: nat, value: nat)
    requires lo * FINE <= exact <= lo * FINE + gap
    requires value * ONE <= s * lo < value * ONE + ONE
    ensures value * ONE * FINE <= s * exact <= value * ONE * FINE + ONE * FINE + s * gap
  {
    MulMono(lo * FINE, exact, s);
    MulMono(exact, lo * FINE + gap, s);
    assert lo * FINE * s == s * lo * FINE && (lo * FINE + gap) * s == s * lo * FINE + s * gap;
  }

  /** The capacity floor on top of it. */
  lemma SecondFloor(value: nat, e: nat, g: nat, capacity: nat, factor: nat)
    requires value * ONE * FINE <= e <= value * ONE * FINE + ONE * FINE + g && factor <= BPS
    requires capacity * BPS <= value * factor < capacity * BPS + BPS
    ensures capacity * UNIT <= e * factor <= capacity * UNIT + 2 * UNIT + g * BPS
  {
    MulMono(value * ONE * FINE, e, factor);
    MulMono(e, value * ONE * FINE + ONE * FINE + g, factor);
    MulMono(factor, BPS, g);
    assert value * ONE * FINE * factor == value * factor * ONE * FINE;
    assert (value * ONE * FINE + ONE * FINE + g) * factor == value * factor * ONE * FINE + factor * ONE * FINE + g * factor;
    assert factor * g == g * factor;
  }

  /** Ceiling of ceiling: debt is at least exact, and above it by at most one unit plus the price gap. */
  lemma DebtBounds(cfg: AssetConfig, borrowed: i128)
    requires SaneConfig(cfg) && DebtOf(cfg, borrowed).Ok? && CollateralOf(cfg, 0).Ok?
    ensures var debt := DebtOf(cfg, borrowed).value;
            var slack := if cfg.priceDecimals <= 18 then 0 else Max(borrowed, 0) * FINE * BPS;
            && 0 <= debt
            && ExactDebt(cfg, borrowed) <= debt * UNIT
            && debt * UNIT <= ExactDebt(cfg, borrowed) + UNIT + slack
  {
    if borrowed > 0 {
      var hi, debt := DebtUnfolds(cfg, borrowed);
      NormalFormsBracket(cfg.price, cfg.priceDecimals);
      hide Lift, NormalizePrice, NormalizePriceCeil, CollateralOf, DebtOf;
      CeilOfCeil(borrowed, hi, cfg.price * Lift(cfg.priceDecimals), if cfg.priceDecimals <= 18 then 0 else FINE, debt);
    }
  }

  lemma DebtUnfolds(cfg: AssetConfig, borrowed: i128) returns (hi: nat, debt: nat)
    requires SaneConfig(cfg) && DebtOf(cfg, borrowed).Ok? && borrowed > 0
    requires NormalizePrice(cfg.price, cfg.priceDecimals).Some?
    ensures NormalizePriceCeil(cfg.price, cfg.priceDecimals) == Some(hi)
    ensures DebtOf(cfg, borrowed) == Ok(debt)
    ensures borrowed * hi <= debt * ONE <= borrowed * hi + ONE
  {
    var price := NormalizePriceCeil(cfg.price, cfg.priceDecimals).value;
    NormalFormsBracket(cfg.price, cfg.priceDecimals);
    hide Lift, NormalizePrice, NormalizePriceCeil;
    hi := price;
    MulMono(0, hi, borrowed);
    debt := (borrowed * hi + ONE - 1) / ONE;
  }

  lemma CeilOfCeil(b: nat, hi: nat, exact: nat, gap: nat, debt: nat)
    requires exact <= hi * FINE <= exact + gap
    requires b * hi <= debt * ONE <= b * hi + ONE
    ensures b * exact * BPS <= debt * UNIT <= b * exact * BPS + UNIT + b * gap * BPS
  {
    MulMono(exact, hi * FINE, b);
    MulMono(hi * FINE, exact + gap, b);
    assert hi * FINE * b == b * hi * FINE && exact * b == b * exact && (exact + gap) * b == b * exact + b * gap;
  }
}
