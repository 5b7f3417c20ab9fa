/** LP share minting and burning (stellar-lend/contracts/amm/src/liquidity_math.rs). */
module LiquidityMath {
  import opened Numeric
  import opened Sequences
  import opened Sqrt

  const MINIMUM_LIQUIDITY: i128 := 1000

  /** `Panicked` is an abort outside the error enumeration: a negative square root, or a quotient
      that does not fit. */
  datatype LiquidityMathError =
    | ZeroReserve
    | InsufficientLiquidityMinted
    | Overflow
    | InvalidBurnAmount
    | ZeroSupply
    | BurnExceedsSupply
    | Panicked

  /** Shares minted to the depositor, and shares locked for ever. */
  function CalculateMintShares(supply: i128, amount0: i128, amount1: i128, reserve0: i128, reserve1: i128)
    : Result<(i128, i128), LiquidityMathError>
  {
    if supply == 0 then
      var product :- Checked(amount0 * amount1).OkOr(Overflow);
      if product < 0 then Err(Panicked)
      else
        var liquidity := SqrtOf(product);
        if liquidity <= MINIMUM_LIQUIDITY then Err(InsufficientLiquidityMinted)
        else
          var shares :- Checked(liquidity - MINIMUM_LIQUIDITY).OkOr(Overflow);
          Ok((shares, MINIMUM_LIQUIDITY))
    else if reserve0 == 0 || reserve1 == 0 then Err(ZeroReserve)
    else
      var scaled0 :- Checked(amount0 * supply).OkOr(Overflow);
      var liquidity0 :- CheckedDiv(scaled0, reserve0).OkOr(Panicked);
      var scaled1 :- Checked(amount1 * supply).OkOr(Overflow);
      var liquidity1 :- CheckedDiv(scaled1, reserve1).OkOr(Panicked);
      var liquidity := Min(liquidity0, liquidity1);
      if liquidity == 0 then Err(InsufficientLiquidityMinted) else Ok((liquidity, 0))
  }

  function CalculateBurnAmounts(shares: i128, supply: i128, reserve0: i128, reserve1: i128)
    : Result<(i128, i128), LiquidityMathError>
  {
    if shares <= 0 then Err(InvalidBurnAmount)
    else if supply <= 0 then Err(ZeroSupply)
    else if shares > supply then Err(BurnExceedsSupply)
    else
      var scaled0 :- Checked(reserve0 * shares).OkOr(Overflow);
      var amount0 :- CheckedDiv(scaled0, supply).OkOr(Panicked);
      var scaled1 :- Checked(reserve1 * shares).OkOr(Overflow);
      var amount1 :- CheckedDiv(scaled1, supply).OkOr(Panicked);
      Ok((amount0, amount1))
  }

  // ---------------------------------------------------------------------------
  // Runs of mints and burns
  // ---------------------------------------------------------------------------

  datatype LpPool = LpPool(reserve0: i128, reserve1: i128, supply: i128)
  datatype LpOp = Mint(amount0: i128, amount1: i128) | Burn(shares: i128)

  /** Pool after a deposit of the two amounts against new shares, or a redemption of shares. */
  function LpStep(p: LpPool, op: LpOp): Result<LpPool, LiquidityMathError> {
    match op
    case Mint(a0, a1) =>
      var (shares, locked) :- CalculateMintShares(p.supply, a0, a1, p.reserve0, p.reserve1);
      var r0 :- Checked(p.reserve0 + a0).OkOr(Overflow);
      var r1 :- Checked(p.reserve1 + a1).OkOr(Overflow);
      var supply :- Checked(p.supply + shares + locked).OkOr(Overflow);
      Ok(LpPool(r0, r1, supply))
    case Burn(s) =>
      var (a0, a1) :- CalculateBurnAmounts(s, p.supply, p.reserve0, p.reserve1);
      var r0 :- Checked(p.reserve0 - a0).OkOr(Overflow);
      var r1 :- Checked(p.reserve1 - a1).OkOr(Overflow);
      Ok(LpPool(r0, r1, p.supply - s))
  }

  /** Pool after a run; a failed step leaves it alone. */
  function LpRun(p: LpPool, ops: seq<LpOp>): LpPool {
    if ops == [] then p
    else
      var q := LpRun(p, ops[..|ops| - 1]);
      match LpStep(q, ops[|ops| - 1])
      case Ok(q') => q'
      case Err(_) => q
  }

  /** Nothing is negative, and a pool without shares holds nothing. */
  ghost predicate Solvent(p: LpPool) {
    && p.reserve0 >= 0 && p.reserve1 >= 0 && p.supply >= 0
    && (p.supply == 0 ==> p.reserve0 == 0 && p.reserve1 == 0)
  }

  ghost predicate NonNegativeAmounts(op: LpOp) {
    op.Mint? ==> op.amount0 >= 0 && op.amount1 >= 0
  }

  /** Each share of `q` is backed by at least as much of both tokens as each share of `p`. */
  ghost predicate BackedAtLeast(q: LpPool, p: LpPool) {
    && q.reserve0 * p.supply >= p.reserve0 * q.supply
    && q.reserve1 * p.supply >= p.reserve1 * q.supply
  }

  /** A product of floors: `r * s / t` times `t` is at most `r * s`. */
  lemma ProRata(r: nat, s: nat, t: nat)
    requires t > 0 && s <= t
    ensures r * s / t * t <= r * s
    ensures 0 <= r * s / t <= r
    ensures s == t ==> r * s / t == r
  {
    FloorDiv(r * s, t);
    if s == t {
      FloorDivAtLeast(r * s, t, r);
    }
    MulMono(s, t, r);
    FloorDivAtMost(r * s, t, r);
    FloorDivAtLeast(r * s, t, 0);
  }

  /** The first deposit mints the integer geometric mean, a thousand of it locked. */
  lemma FirstMintIsGeometricMean(a0: i128, a1: i128, r0: i128, r1: i128)
    requires CalculateMintShares(0, a0, a1, r0, r1).Ok?
    ensures var (shares, locked) := CalculateMintShares(0, a0, a1, r0, r1).value;
            var all := shares + locked;
            && shares > 0 && locked == MINIMUM_LIQUIDITY
            && all * all <= a0 * a1 < (all + 1) * (all + 1)
  {
  }

  /** Later deposits mint the most shares that neither amount over-pays for. */
  lemma MintedShares(supply: i128, a0: i128, a1: i128, r0: i128, r1: i128)
    requires supply > 0 && a0 >= 0 && a1 >= 0 && r0 >= 0 && r1 >= 0
    requires CalculateMintShares(supply, a0, a1, r0, r1).Ok?
    ensures var (shares, locked) := CalculateMintShares(supply, a0, a1, r0, r1).value;
            && locked == 0 && shares > 0
            && shares * r0 <= a0 * supply && shares * r1 <= a1 * supply
            && ((shares + 1) * r0 > a0 * supply || (shares + 1) * r1 > a1 * supply)
  {
    var q0, q1 := a0 * supply / r0, a1 * supply / r1;
    var (shares, locked) := CalculateMintShares(supply, a0, a1, r0, r1).value;
    MulMono(0, a0, supply);
    MulMono(0, a1, supply);
    assert shares == Min(q0, q1) && locked == 0 && shares != 0;
    hide CalculateMintShares;
    FloorShares(a0 * supply, r0, q0, shares);
    FloorShares(a1 * supply, r1, q1, shares);
  }

  lemma FloorShares(scaled: nat, r: nat, q: int, shares: int)
    requires r > 0 && q == scaled / r && shares <= q
    ensures 0 <= q && shares * r <= scaled
    ensures shares == q ==> (shares + 1) * r > scaled
  {
    FloorDiv(scaled, r);
    FloorDivAtLeast(scaled, r, 0);
    MulMono(shares, q, r);
    assert (q + 1) * r == q * r + r;
  }

  lemma BurnedAmounts(s: i128, supply: i128, r0: i128, r1: i128)
    requires r0 >= 0 && r1 >= 0
    requires CalculateBurnAmounts(s, supply, r0, r1).Ok?
    ensures var (a0, a1) := CalculateBurnAmounts(s, supply, r0, r1).value;
            && 0 < s <= supply
            && a0 == r0 * s / supply && a1 == r1 * s / supply
            && 0 <= a0 <= r0 && a0 * supply <= r0 * s
            && 0 <= a1 <= r1 && a1 * supply <= r1 * s
            && (s == supply ==> a0 == r0 && a1 == r1)
  {
    ProRata(r0, s, supply);
    ProRata(r1, s, supply);
    assert r0 * s >= 0 && r1 * s >= 0;
  }

  /** Which deposits mint, exactly: a first one of more than a thousand shares; later ones of at least a share
      on either side, while both reserves are there. No product may leave i128. */
  lemma MintSucceedsIff(supply: i128, a0: i128, a1: i128, r0: i128, r1: i128)
    requires supply >= 0 && a0 >= 0 && a1 >= 0 && r0 >= 0 && r1 >= 0
    ensures CalculateMintShares(supply, a0, a1, r0, r1).Ok? <==>
            if supply == 0 then 1_001 * 1_001 <= a0 * a1 <= I128_MAX
            else
              && r0 > 0 && r1 > 0 && InI128(a0 * supply) && InI128(a1 * supply)
              && a0 * supply >= r0 && a1 * supply >= r1
  {
    if supply == 0 {
      FirstMintIff(a0, a1, r0, r1);
    } else if r0 > 0 && r1 > 0 {
      LaterMintIff(supply, a0, a1, r0, r1);
    } else {
      hide SqrtOf, TruncDiv;
    }
  }

  lemma FirstMintIff(a0: i128, a1: i128, r0: i128, r1: i128)
    requires a0 >= 0 && a1 >= 0
    ensures CalculateMintShares(0, a0, a1, r0, r1).Ok? <==> 1_001 * 1_001 <= a0 * a1 <= I128_MAX
  {
    MulMono(0, a0, a1);
    RootAboveIff(a0 * a1);
    hide SqrtOf;
    if a0 * a1 <= I128_MAX {
      RootFits(a0 * a1);
    }
  }

  lemma RootFits(y: nat)
    ensures SqrtOf(y) <= y
  {
    if SqrtOf(y) > 0 {
      MulMono(1, SqrtOf(y), SqrtOf(y));
    }
  }

  lemma LaterMintIff(supply: i128, a0: i128, a1: i128, r0: i128, r1: i128)
    requires supply > 0 && a0 >= 0 && a1 >= 0 && r0 > 0 && r1 > 0
    ensures CalculateMintShares(supply, a0, a1, r0, r1).Ok? <==>
              InI128(a0 * supply) && InI128(a1 * supply) && a0 * supply >= r0 && a1 * supply >= r1
  {
    SharesIff(a0, supply, r0);
    SharesIff(a1, supply, r1);
    hide TruncDiv;
  }

  lemma RootAboveIff(y: nat)
    ensures SqrtOf(y) > 1_000 <==> y >= 1_001 * 1_001
  {
    var r := SqrtOf(y);
    assert r * r <= y < (r + 1) * (r + 1);
    hide SqrtOf;
    SquaresAbove(r, y);
  }

  lemma SquaresAbove(r: nat, y: nat)
    requires r * r <= y < (r + 1) * (r + 1)
    ensures r > 1_000 <==> y >= 1_001 * 1_001
  {
    if r > 1_000 {
      SquareMono(1_001, r);
    } else {
      SquareMono(r + 1, 1_001);
    }
  }

  lemma SharesIff(a: nat, supply: nat, r: nat)
    requires r > 0
    ensures 0 <= TruncDiv(a * supply, r) <= a * supply
    ensures TruncDiv(a * supply, r) == 0 <==> a * supply < r
  {
    MulMono(0, a, supply);
    MulMono(1, r, a * supply + 1);
    FloorDivAtLeast(a * supply, r, 0);
    FloorDivAtMost(a * supply, r, a * supply);
    if a * supply >= r {
      FloorDivAtLeast(a * supply, r, 1);
    } else {
      FloorDivAtMost(a * supply, r, 0);
    }
  }

  /** Which redemptions pay, exactly: of some shares and no more than there are, without overflow. */
  lemma BurnSucceedsIff(s: i128, supply: i128, r0: i128, r1: i128)
    requires r0 >= 0 && r1 >= 0
    ensures CalculateBurnAmounts(s, supply, r0, r1).Ok? <==>
            0 < s <= supply && InI128(s * r0) && InI128(s * r1)
  {
    if 0 < s <= supply {
      ProRata(r0, s, supply);
      ProRata(r1, s, supply);
      assert s * r0 == r0 * s && s * r1 == r1 * s && r0 * s >= 0 && r1 * s >= 0;
    }
  }

  /** A mint adds the deposit to the reserves and all its shares, locked ones included, to the supply; a burn
      takes what it pays and what it burns. */
  lemma StepLeaves(p: LpPool, op: LpOp)
    requires LpStep(p, op).Ok?
    ensures var q := LpStep(p, op).value;
            match op
            case Mint(a0, a1) =>
              var minted := CalculateMintShares(p.supply, a0, a1, p.reserve0, p.reserve1);
              && minted.Ok? && q.reserve0 - p.reserve0 == a0 && q.reserve1 - p.reserve1 == a1
              && q.supply - p.supply == minted.value.0 + minted.value.1
            case Burn(s) =>
              var paid := CalculateBurnAmounts(s, p.supply, p.reserve0, p.reserve1);
              && paid.Ok? && p.reserve0 - q.reserve0 == paid.value.0 && p.reserve1 - q.reserve1 == paid.value.1
              && p.supply - q.supply == s
  {
    hide CalculateMintShares, CalculateBurnAmounts;
  }

  lemma MintKeepsBacking(p: LpPool, a0: i128, a1: i128)
    requires Solvent(p) && a0 >= 0 && a1 >= 0 && LpStep(p, Mint(a0, a1)).Ok?
    ensures Solvent(LpStep(p, Mint(a0, a1)).value)
    ensures p.supply > 0 ==> BackedAtLeast(LpStep(p, Mint(a0, a1)).value, p)
  {
    var shares := CalculateMintShares(p.supply, a0, a1, p.reserve0, p.reserve1).value.0;
    if p.supply > 0 {
      MintedShares(p.supply, a0, a1, p.reserve0, p.reserve1);
      hide CalculateMintShares, CalculateBurnAmounts;
      Distribute(p.reserve0, a0, p.supply, shares);
      Distribute(p.reserve1, a1, p.supply, shares);
    } else {
      FirstMintIsGeometricMean(a0, a1, p.reserve0, p.reserve1);
      hide CalculateMintShares, CalculateBurnAmounts;
    }
  }

  lemma BurnKeepsBacking(p: LpPool, s: i128)
    requires Solvent(p) && LpStep(p, Burn(s)).Ok?
    ensures Solvent(LpStep(p, Burn(s)).value)
    ensures BackedAtLeast(LpStep(p, Burn(s)).value, p)
  {
    hide CalculateMintShares, CalculateBurnAmounts;
    BurnedAmounts(s, p.supply, p.reserve0, p.reserve1);
    var (a0, a1) := CalculateBurnAmounts(s, p.supply, p.reserve0, p.reserve1).value;
    Distribute(p.reserve0, -a0, p.supply, -s);
    Distribute(p.reserve1, -a1, p.supply, -s);
  }

  /** One step keeps the pool solvent and, from a pool with shares, never dilutes a share. */
  lemma StepKeepsBacking(p: LpPool, op: LpOp)
    requires Solvent(p) && NonNegativeAmounts(op) && LpStep(p, op).Ok?
    ensures Solvent(LpStep(p, op).value)
    ensures p.supply > 0 ==> BackedAtLeast(LpStep(p, op).value, p)
  {
    hide LpStep, Solvent, BackedAtLeast;
    match op {
      case Mint(a0, a1) => MintKeepsBacking(p, a0, a1);
      case Burn(s) => BurnKeepsBacking(p, s);
    }
  }

  lemma Distribute(r: int, a: int, t: int, s: int)
    requires a * t >= r * s
    ensures (r + a) * t >= r * (t + s)
  {
    assert (r + a) * t == r * t + a * t;
    assert r * (t + s) == r * t + r * s;
  }

  lemma BackingIsTransitive(a: int, b: int, c: int, ta: nat, tb: nat, tc: nat)
    requires tb > 0 && b * ta >= a * tb && c * tb >= b * tc
    ensures c * ta >= a * tc
  {
    MulMono(b * tc, c * tb, ta);
    MulMono(a * tb, b * ta, tc);
    assert b * tc * ta == b * ta * tc;
    assert c * tb * ta == c * ta * tb;
    assert a * tb * tc == a * tc * tb;
    MulCancelLe(a * tc, c * ta, tb);
  }

  /** Over any run of mints and burns that keeps shares outstanding, the backing of a share by either
      token never decreases. */
  lemma {:induction false} RunKeepsBacking(p: LpPool, ops: seq<LpOp>)
    requires Solvent(p) && p.supply > 0
    requires forall i :: 0 <= i < |ops| ==> NonNegativeAmounts(ops[i])
    requires forall i :: 0 <= i <= |ops| ==> LpRun(p, ops[..i]).supply > 0
    ensures Solvent(LpRun(p, ops)) && BackedAtLeast(LpRun(p, ops), p)
  {
    if ops == [] {
    } else {
      var front := ops[..|ops| - 1];
      assert forall i :: 0 <= i <= |front| ==> front[..i] == ops[..i];
      RunKeepsBacking(p, front);
      assert ops[..|ops| - 1] == front;
      var q, r := LpRun(p, front), LpRun(p, ops);
      if LpStep(q, ops[|ops| - 1]).Ok? {
        StepKeepsBacking(q, ops[|ops| - 1]);
        BackingIsTransitive(p.reserve0, q.reserve0, r.reserve0, p.supply, q.supply, r.supply);
        BackingIsTransitive(p.reserve1, q.reserve1, r.reserve1, p.supply, q.supply, r.supply);
      }
    }
  }

  /** Burning exactly the shares just minted returns at most what was deposited. */
  lemma MintThenBurnLoses(p: LpPool, a0: i128, a1: i128)
    requires Solvent(p) && a0 >= 0 && a1 >= 0
    requires LpStep(p, Mint(a0, a1)).Ok?
    requires var shares := CalculateMintShares(p.supply, a0, a1, p.reserve0, p.reserve1).value.0;
             var q := LpStep(p, Mint(a0, a1)).value;
             CalculateBurnAmounts(shares, q.supply, q.reserve0, q.reserve1).Ok?
    ensures var shares := CalculateMintShares(p.supply, a0, a1, p.reserve0, p.reserve1).value.0;
            var q := LpStep(p, Mint(a0, a1)).value;
            var back := CalculateBurnAmounts(shares, q.supply, q.reserve0, q.reserve1).value;
            back.0 <= a0 && back.1 <= a1
  {
    var (shares, locked) := CalculateMintShares(p.supply, a0, a1, p.reserve0, p.reserve1).value;
    var q := LpStep(p, Mint(a0, a1)).value;
    BurnedAmounts(shares, q.supply, q.reserve0, q.reserve1);
    if p.supply > 0 {
      MintedShares(p.supply, a0, a1, p.reserve0, p.reserve1);
      RedeemAtMost(p.reserve0, a0, p.supply, shares);
      RedeemAtMost(p.reserve1, a1, p.supply, shares);
    }
  }

  lemma RedeemAtMost(r: nat, a: nat, t: nat, s: nat)
    requires t > 0 && s * r <= a * t
    ensures (r + a) * s / (t + s) <= a
  {
    assert (r + a) * s == s * r + a * s;
    assert (a + 1) * (t + s) == a * t + a * s + (t + s);
    FloorDivAtMost((r + a) * s, t + s, a);
  }

  // ---------------------------------------------------------------------------
  // Splitting a burn
  // ---------------------------------------------------------------------------

  /** Tokens paid by burns made one after another, when all succeed. */
  function BurnAll(p: LpPool, burns: seq<i128>): Result<(int, int), LiquidityMathError>
    decreases |burns|
  {
    if burns == [] then Ok((0, 0))
    else
      var (a0, a1) :- CalculateBurnAmounts(burns[0], p.supply, p.reserve0, p.reserve1);
      var q :- LpStep(p, Burn(burns[0]));
      var (b0, b1) :- BurnAll(q, burns[1..]);
      Ok((a0 + b0, a1 + b1))
  }

  /** The second redemption, exactly: what it pays, scaled to the first supply, exceeds its share of
      the first reserve by at most the remainder `e` the first one left behind. */
  lemma SecondBurnBound(r: nat, supply: nat, s: nat, t: nat, o1: nat, o2: nat, e: nat)
    requires s + t <= supply && s < supply
    requires o1 <= r && o1 * supply + e == r * s
    requires o2 * (supply - s) <= (r - o1) * t
    ensures o2 * supply <= r * t + e
  {
    var rest := supply - s;
    assert (r - o1) * supply == r * rest + e by {
      assert r * supply == r * rest + r * s;
      assert (r - o1) * supply == r * supply - o1 * supply;
    }
    ShareOfRemainder(r, supply, rest, r - o1, t, o2, e);
  }

  /** What a redemption of `t` from the remainder `rem` pays, scaled to the first supply. */
  lemma ShareOfRemainder(r: nat, supply: nat, rest: nat, rem: nat, t: nat, o2: nat, e: nat)
    requires 0 < rest && t <= rest && o2 * rest <= rem * t && rem * supply == r * rest + e
    ensures o2 * supply <= r * t + e
  {
    MulMono(o2 * rest, rem * t, supply);
    SwapFactors(o2, rest, supply);
    SwapFactors(rem, t, supply);
    Expand(r * rest, e, t);
    SwapFactors(r, rest, t);
    ShareAndRest(o2 * supply, r * t, e, t, rest);
  }

  lemma SwapFactors(a: int, b: int, c: int)
    ensures a * b * c == a * c * b
  {
  }

  lemma ShareAndRest(x: int, y: int, e: nat, t: nat, rest: nat)
    requires 0 < rest && t <= rest && x * rest <= y * rest + e * t
    ensures x <= y + e
  {
    MulMono(t, rest, e);
    Expand(y, e, rest);
    MulCancelLe(x, y + e, rest);
  }

  lemma Expand(a: int, b: int, c: int)
    ensures (a + b) * c == a * c + b * c
  {
  }

  /** Redeeming `s` and then `t` shares of a reserve pays at most redeeming them together. */
  lemma TwoBurnsPayLess(r: nat, supply: nat, s: nat, t: nat, o1: nat, o2: nat)
    requires 0 < supply && s + t <= supply
    requires o1 == r * s / supply && o1 <= r
    requires if s < supply then o2 <= (r - o1) * t / (supply - s) else o2 == 0
    ensures o1 + o2 <= r * (s + t) / supply
  {
    FloorDiv(r * s, supply);
    var e := r * s - o1 * supply;
    if s < supply {
      FloorDiv((r - o1) * t, supply - s);
      MulMono(o2, (r - o1) * t / (supply - s), supply - s);
      SecondBurnBound(r, supply, s, t, o1, o2, e);
    }
    assert r * (s + t) == r * s + r * t;
    Expand(o1, o2, supply);
    FloorDivAtLeast(r * (s + t), supply, o1 + o2);
  }

  /** Splitting a burn into pieces never pays more than one burn of their sum. */
  lemma {:induction false} SplitBurnsPayLess(p: LpPool, burns: seq<i128>)
    requires Solvent(p) && p.supply > 0 && BurnAll(p, burns).Ok?
    ensures 0 <= SumOf(burns) <= p.supply
    ensures BurnAll(p, burns).value.0 <= p.reserve0 * SumOf(burns) / p.supply
    ensures BurnAll(p, burns).value.1 <= p.reserve1 * SumOf(burns) / p.supply
    ensures 0 <= BurnAll(p, burns).value.0 && 0 <= BurnAll(p, burns).value.1
    decreases |burns|
  {
    if burns == [] {
      FloorDivAtLeast(p.reserve0 * 0, p.supply, 0);
    } else {
      var s := burns[0];
      BurnedAmounts(s, p.supply, p.reserve0, p.reserve1);
      var q := LpStep(p, Burn(s)).value;
      StepKeepsBacking(p, Burn(s));
      var rest := BurnAll(q, burns[1..]).value;
      if q.supply > 0 {
        SplitBurnsPayLess(q, burns[1..]);
      } else {
        assert burns[1..] == [];
      }
      TwoBurnsPayLess(p.reserve0, p.supply, s, SumOf(burns[1..]), p.reserve0 - q.reserve0, rest.0);
      TwoBurnsPayLess(p.reserve1, p.supply, s, SumOf(burns[1..]), p.reserve1 - q.reserve1, rest.1);
    }
  }
}
