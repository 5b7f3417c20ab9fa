/** What the TWAP means over whole runs of updates: an exact integral of the price in
    force at every second, against which the wrapping accumulator and the ring are proved
    (stellar-lend/contracts/hello-world/src/amm_twap.rs). */
module TwapHistory {
  import opened Numeric
  import opened TwapPool

  // ---------------------------------------------------------------------------
  // Runs and the price history they leave
  // ---------------------------------------------------------------------------

  ghost predicate Chronological(us: seq<Reading>) {
    forall i, j :: 0 <= i < j < |us| ==> us[i].time <= us[j].time
  }

  /** Pool after a run from empty storage; a call that fails leaves it alone. */
  function Run(us: seq<Reading>): Pool {
    if us == [] then Pool(None, [])
    else
      var p := Run(us[..|us| - 1]);
      match Updated(p, us[|us| - 1])
      case Ok(p') => p'
      case Err(_) => p
  }

  /** The updates of a run that took effect. */
  function Accepted(us: seq<Reading>): seq<Reading> {
    if us == [] then []
    else
      var front := us[..|us| - 1];
      var u := us[|us| - 1];
      if Updated(Run(front), u).Ok? then Accepted(front) + [u] else Accepted(front)
  }

  datatype Side = BaseInQuote | QuoteInBase

  /** The price a reading sets: the reserve of the other token over that of its own, at 18 decimals, floored. */
  function PriceOf(u: Reading, side: Side): nat {
    if u.reserve0 == 0 || u.reserve1 == 0 then 0
    else if side.BaseInQuote? then u.reserve1 * 1_000_000_000_000_000_000 / u.reserve0
    else u.reserve0 * 1_000_000_000_000_000_000 / u.reserve1
  }

  lemma PriceIsFloor(u: Reading, side: Side)
    requires u.reserve0 > 0 && u.reserve1 > 0
    ensures var (own, other) := if side.BaseInQuote? then (u.reserve0, u.reserve1) else (u.reserve1, u.reserve0);
            && StepPrice(own, other) == PriceOf(u, side)
            && PriceOf(u, side) * own <= other * 1_000_000_000_000_000_000 < (PriceOf(u, side) + 1) * own
  {
    FloorDiv(u.reserve1 * 1_000_000_000_000_000_000, u.reserve0);
    FloorDiv(u.reserve0 * 1_000_000_000_000_000_000, u.reserve1);
  }

  /** Price in force during second `t`: that of the last update not after `t`. */
  function PriceAt(h: seq<Reading>, side: Side, t: nat): nat {
    if h == [] then 0
    else if h[|h| - 1].time <= t then PriceOf(h[|h| - 1], side)
    else PriceAt(h[..|h| - 1], side, t)
  }

  /** Exact time integral of the price over the seconds `[a, b)`. */
  function Integral(h: seq<Reading>, side: Side, a: nat, b: nat): nat {
    if b <= a then 0 else Integral(h, side, a, b - 1) + PriceAt(h, side, b - 1)
  }

  function CumulativeOf(s: TwapSnapshot, side: Side): u128 {
    if side.BaseInQuote? then s.price0Cumulative else s.price1Cumulative
  }

  // ---------------------------------------------------------------------------
  // Integrals
  // ---------------------------------------------------------------------------

  lemma {:induction false} IntegralSplit(h: seq<Reading>, side: Side, a: nat, m: nat, b: nat)
    requires a <= m <= b
    ensures Integral(h, side, a, b) == Integral(h, side, a, m) + Integral(h, side, m, b)
  {
    if m >= b {
    } else {
      IntegralSplit(h, side, a, m, b - 1);
    }
  }

  lemma OneMore(p: nat, n: nat)
    ensures p * (n + 1) == p * n + p
  {
  }

  lemma {:induction false} IntegralOfConstant(h: seq<Reading>, side: Side, a: nat, b: nat, p: nat)
    requires a <= b
    requires forall t :: a <= t < b ==> PriceAt(h, side, t) == p
    ensures Integral(h, side, a, b) == p * (b - a)
  {
    if a >= b {
    } else {
      IntegralOfConstant(h, side, a, b - 1, p);
      OneMore(p, b - 1 - a);
    }
  }

  lemma {:induction false} IntegralBetween(h: seq<Reading>, side: Side, a: nat, b: nat, lo: nat, hi: nat)
    requires a <= b
    requires forall t :: a <= t < b ==> lo <= PriceAt(h, side, t) <= hi
    ensures lo * (b - a) <= Integral(h, side, a, b) <= hi * (b - a)
  {
    if a >= b {
    } else {
      IntegralBetween(h, side, a, b - 1, lo, hi);
      OneMore(lo, b - 1 - a);
      OneMore(hi, b - 1 - a);
    }
  }

  /** A later update changes nothing before its own second. */
  lemma {:induction false} LaterUpdateKeepsIntegral(h: seq<Reading>, u: Reading, side: Side, a: nat, b: nat)
    requires b <= u.time
    ensures Integral(h + [u], side, a, b) == Integral(h, side, a, b)
  {
    if a >= b {
    } else {
      LaterUpdateKeepsIntegral(h, u, side, a, b - 1);
      assert (h + [u])[..|h|] == h;
    }
  }

  // ---------------------------------------------------------------------------
  // The run invariant
  // ---------------------------------------------------------------------------

  /** Timestamps and size of the ring of a run whose last accepted update is at `last`. */
  ghost predicate RingShape(snaps: seq<TwapSnapshot>, last: nat) {
    && |snaps| <= MAX_SNAPSHOTS
    && (forall i :: 0 <= i < |snaps| ==> SNAPSHOT_INTERVAL_SECS <= snaps[i].timestamp <= last)
    && (forall i :: 0 < i < |snaps| ==>
          snaps[i].timestamp >= snaps[i - 1].timestamp + SNAPSHOT_INTERVAL_SECS)
    && (snaps != [] <==> last >= SNAPSHOT_INTERVAL_SECS)
  }

  /** Every ring entry holds the exact integral up to its timestamp, modulo 2^128. */
  ghost predicate RingExact(snaps: seq<TwapSnapshot>, h: seq<Reading>) {
    forall i, side :: 0 <= i < |snaps| ==>
      CumulativeOf(snaps[i], side) == Integral(h, side, 0, snaps[i].timestamp) % U128_MOD
  }

  ghost predicate Exact(s: TwapPoolState, h: seq<Reading>)
    requires h != []
  {
    var last := h[|h| - 1];
    && s.lastTimestamp == last.time
    && s.lastReserve0 == last.reserve0 > 0
    && s.lastReserve1 == last.reserve1 > 0
    && s.price0Cumulative == Integral(h, BaseInQuote, 0, last.time) % U128_MOD
    && s.price1Cumulative == Integral(h, QuoteInBase, 0, last.time) % U128_MOD
  }

  ghost predicate Reachable(p: Pool, h: seq<Reading>) {
    if h == [] then p == Pool(None, [])
    else
      && p.state.Some?
      && Exact(p.state.value, h)
      && RingShape(p.snaps, h[|h| - 1].time)
      && RingExact(p.snaps, h)
  }

  /** The integral up to `t` when no update happened since `h`'s last. */
  lemma IntegralProjection(h: seq<Reading>, side: Side, t: nat)
    requires h != [] && h[|h| - 1].time <= t
    ensures Integral(h, side, 0, t) ==
            Integral(h, side, 0, h[|h| - 1].time) + PriceOf(h[|h| - 1], side) * (t - h[|h| - 1].time)
  {
    var last := h[|h| - 1];
    IntegralSplit(h, side, 0, last.time, t);
    IntegralOfConstant(h, side, last.time, t, PriceOf(last, side));
  }

  lemma IntegralBeforeFirst(u: Reading, side: Side)
    ensures Integral([u], side, 0, u.time) == 0
  {
    assert [u][..0] == [];
    IntegralOfConstant([u], side, 0, u.time, 0);
  }

  /** Wrapping addition is addition modulo 2^128. */
  lemma WrappedSum(c: u128, before: nat, contribution: u128, after: nat)
    requires c == before % U128_MOD && after == before + contribution
    ensures WrappingAdd(c, contribution) == after % U128_MOD
  {
    var q := before / U128_MOD;
    if c + contribution < U128_MOD {
      DivModUnique(after, U128_MOD, q, c + contribution);
    } else {
      DivModUnique(after, U128_MOD, q + 1, c + contribution - U128_MOD);
    }
  }

  lemma AccumulatedIsExact(s: TwapPoolState, h: seq<Reading>, u: Reading)
    requires h != [] && Exact(s, h) && h[|h| - 1].time <= u.time
    requires Accumulated(s, u.time).Ok?
    ensures var a := Accumulated(s, u.time).value;
            && a.price0Cumulative == Integral(h + [u], BaseInQuote, 0, u.time) % U128_MOD
            && a.price1Cumulative == Integral(h + [u], QuoteInBase, 0, u.time) % U128_MOD
  {
    var last := h[|h| - 1];
    LaterUpdateKeepsIntegral(h, u, BaseInQuote, 0, u.time);
    LaterUpdateKeepsIntegral(h, u, QuoteInBase, 0, u.time);
    IntegralProjection(h, BaseInQuote, u.time);
    IntegralProjection(h, QuoteInBase, u.time);
    if last.time < u.time {
      var c0 := Contribution(last.reserve0, last.reserve1, u.time - last.time).value;
      var c1 := Contribution(last.reserve1, last.reserve0, u.time - last.time).value;
      WrappedSum(s.price0Cumulative, Integral(h, BaseInQuote, 0, last.time), c0,
                 Integral(h, BaseInQuote, 0, u.time));
      WrappedSum(s.price1Cumulative, Integral(h, QuoteInBase, 0, last.time), c1,
                 Integral(h, QuoteInBase, 0, u.time));
    }
  }

  lemma RingExactExtends(snaps: seq<TwapSnapshot>, h: seq<Reading>, u: Reading)
    requires RingExact(snaps, h)
    requires forall i :: 0 <= i < |snaps| ==> snaps[i].timestamp <= u.time
    ensures RingExact(snaps, h + [u])
  {
    forall i, side | 0 <= i < |snaps|
      ensures CumulativeOf(snaps[i], side) == Integral(h + [u], side, 0, snaps[i].timestamp) % U128_MOD
    {
      LaterUpdateKeepsIntegral(h, u, side, 0, snaps[i].timestamp);
    }
  }

  lemma CheckpointKeepsShape(snaps: seq<TwapSnapshot>, last: nat, s: TwapPoolState)
    requires snaps == [] || RingShape(snaps, last)
    requires snaps != [] ==> last <= s.lastTimestamp
    ensures RingShape(Checkpointed(snaps, s), s.lastTimestamp)
  {
  }

  lemma CheckpointKeepsExact(snaps: seq<TwapSnapshot>, s: TwapPoolState, h: seq<Reading>)
    requires RingExact(snaps, h)
    requires s.price0Cumulative == Integral(h, BaseInQuote, 0, s.lastTimestamp) % U128_MOD
    requires s.price1Cumulative == Integral(h, QuoteInBase, 0, s.lastTimestamp) % U128_MOD
    ensures RingExact(Checkpointed(snaps, s), h)
  {
    var c := Checkpointed(snaps, s);
    forall i, side | 0 <= i < |c|
      ensures CumulativeOf(c[i], side) == Integral(h, side, 0, c[i].timestamp) % U128_MOD
    {
      assert c[i] in snaps || c[i] == TwapSnapshot(s.lastTimestamp, s.price0Cumulative, s.price1Cumulative);
    }
  }

  /** One accepted update keeps the whole invariant. */
  lemma UpdateKeepsReachable(p: Pool, h: seq<Reading>, u: Reading)
    requires Reachable(p, h)
    requires h != [] ==> h[|h| - 1].time <= u.time
    requires Updated(p, u).Ok?
    ensures Reachable(Updated(p, u).value, h + [u])
  {
    var s' := Updated(p, u).value.state.value;
    if h == [] {
      assert h + [u] == [u];
      IntegralBeforeFirst(u, BaseInQuote);
      IntegralBeforeFirst(u, QuoteInBase);
      CheckpointKeepsShape([], 0, s');
    } else {
      AccumulatedIsExact(p.state.value, h, u);
      RingExactExtends(p.snaps, h, u);
      CheckpointKeepsShape(p.snaps, h[|h| - 1].time, s');
    }
    CheckpointKeepsExact(p.snaps, s', h + [u]);
  }

  lemma {:induction false} AcceptedIsPart(us: seq<Reading>)
    ensures forall u :: u in Accepted(us) ==> u in us
  {
    if us == [] {
    } else {
      AcceptedIsPart(us[..|us| - 1]);
    }
  }

  lemma LastAcceptedNotAfter(us: seq<Reading>, now: nat)
    requires forall u :: u in us ==> u.time <= now
    ensures Accepted(us) != [] ==> Accepted(us)[|Accepted(us)| - 1].time <= now
  {
    AcceptedIsPart(us);
  }

  /** In every reachable state the ring has at most 1440 entries at least 60 s apart, it is empty
      only until an update at second 60 or later, and every stored cumulative value is the exact
      integral of the history modulo 2^128. */
  lemma {:induction false} RunIsReachable(us: seq<Reading>)
    requires Chronological(us)
    ensures Reachable(Run(us), Accepted(us))
  {
    if us == [] {
    } else {
      var front := us[..|us| - 1];
      var u := us[|us| - 1];
      assert us == front + [u];
      RunIsReachable(front);
      LastAcceptedNotAfter(front, u.time);
      if Updated(Run(front), u).Ok? {
        UpdateKeepsReachable(Run(front), Accepted(front), u);
      }
    }
  }

  /** Dropping the failed calls of a run changes nothing. */
  lemma {:induction false} RejectedUpdatesVanish(us: seq<Reading>)
    ensures Run(Accepted(us)) == Run(us)
    ensures Accepted(Accepted(us)) == Accepted(us)
  {
    if us == [] {
    } else {
      var front := us[..|us| - 1];
      RejectedUpdatesVanish(front);
      var u := us[|us| - 1];
      if Updated(Run(front), u).Ok? {
        assert (Accepted(front) + [u])[..|Accepted(front)|] == Accepted(front);
      }
    }
  }

  // ---------------------------------------------------------------------------
  // The query is the exact average
  // ---------------------------------------------------------------------------

  /** Wrapping subtraction of two wrapped totals is the difference modulo 2^128. */
  lemma WrappedDifference(x: nat, y: nat)
    requires y <= x
    ensures WrappingSub(x % U128_MOD, y % U128_MOD) == (x - y) % U128_MOD
  {
    var q, r := x / U128_MOD - y / U128_MOD, x % U128_MOD - y % U128_MOD;
    if r >= 0 {
      DivModUnique(x - y, U128_MOD, q, r);
    } else {
      DivModUnique(x - y, U128_MOD, q - 1, r + U128_MOD);
    }
  }

  /** Dropping a wrap-around from the dividend changes the quotient: the divisor is far below 2^128. */
  lemma QuotientSeesWrap(x: nat, w: nat)
    requires 0 < w <= U64_MAX
    ensures x % U128_MOD / w == x / w <==> x < U128_MOD
  {
    if x >= U128_MOD {
      var y := x % U128_MOD;
      FloorDiv(y, w);
      assert (y / w + 1) * w <= x by {
        assert y + w <= x;
      }
      FloorDivAtLeast(x, w, y / w + 1);
    }
  }

  lemma ProjectedIsExact(p: Pool, h: seq<Reading>, now: u64)
    requires h != [] && Reachable(p, h) && h[|h| - 1].time <= now
    requires Projected(p.state.value, now).Ok?
    ensures Projected(p.state.value, now).value == Integral(h, BaseInQuote, 0, now) % U128_MOD
  {
    var last := h[|h| - 1];
    IntegralProjection(h, BaseInQuote, now);
    if last.time < now {
      var c := Contribution(last.reserve0, last.reserve1, now - last.time).value;
      WrappedSum(p.state.value.price0Cumulative, Integral(h, BaseInQuote, 0, last.time), c,
                 Integral(h, BaseInQuote, 0, now));
    }
  }

  lemma SortedRing(snaps: seq<TwapSnapshot>, last: nat)
    requires RingShape(snaps, last)
    ensures Sorted(snaps)
  {
    forall i, j | 0 <= i < j < |snaps|
      ensures snaps[i].timestamp < snaps[j].timestamp
    {
      RingGap(snaps, last, i, j);
    }
  }

  lemma {:induction false} RingGap(snaps: seq<TwapSnapshot>, last: nat, i: nat, j: nat)
    requires RingShape(snaps, last) && i <= j < |snaps|
    ensures snaps[j].timestamp >= snaps[i].timestamp + SNAPSHOT_INTERVAL_SECS * (j - i)
  {
    if i >= j {
    } else {
      RingGap(snaps, last, i, j - 1);
    }
  }

  /** Where an answer starts: at the newest entry not after the target, else at the oldest entry. */
  ghost predicate IsAnchor(snaps: seq<TwapSnapshot>, target: nat, start: nat) {
    && (exists s :: s in snaps && s.timestamp == start)
    && (forall s :: s in snaps && s.timestamp <= target ==> s.timestamp <= start)
    && (start > target ==> forall s :: s in snaps ==> start <= s.timestamp)
  }

  lemma AnchorIsAnchor(p: Pool, last: nat, target: nat)
    requires p.state.Some? && p.snaps != [] && RingShape(p.snaps, last)
    ensures IsAnchor(p.snaps, target, Anchor(p, target).timestamp)
  {
    SortedRing(p.snaps, last);
    LatestIsGreatest(p.snaps, target);
    assert p.snaps[0] in p.snaps;
    assert forall s :: s in p.snaps ==> p.snaps[0].timestamp <= s.timestamp;
  }

  /** Main result. For every run that has reached second 60, whatever wraps inside the accumulator:
      an answer starts at the anchor, and it is the floor of the exact time average of the step price
      from the anchor to `now` if and only if the integral over that interval is below 2^128. */
  lemma TwapIsExactAverage(us: seq<Reading>, now: u64, window: u64)
    requires Chronological(us) && (forall u :: u in us ==> u.time <= now)
    requires Run(us).snaps != []
    requires Twap(Run(us), now, window).Ok?
    ensures var p := Run(us);
            var start := Anchor(p, SatSub(now, window)).timestamp;
            var integral := Integral(Accepted(us), BaseInQuote, start, now);
            && start < now && IsAnchor(p.snaps, SatSub(now, window), start)
            && Twap(p, now, window).value == integral % U128_MOD / (now - start)
            && (Twap(p, now, window).value == integral / (now - start) <==> integral < U128_MOD)
  {
    hide Run, Accepted, Integral, PriceAt, LatestAtOrBefore, Contribution;
    RunIsReachable(us);
    LastAcceptedNotAfter(us, now);
    var p, h := Run(us), Accepted(us);
    SortedRing(p.snaps, h[|h| - 1].time);
    AnchorIsAnchor(p, h[|h| - 1].time, SatSub(now, window));
    hide IsAnchor;
    var start := Anchor(p, SatSub(now, window));
    LatestIsGreatest(p.snaps, SatSub(now, window));
    assert start in p.snaps;
    assert CumulativeOf(start, BaseInQuote) == Integral(h, BaseInQuote, 0, start.timestamp) % U128_MOD;
    ProjectedIsExact(p, h, now);
    IntegralSplit(h, BaseInQuote, 0, start.timestamp, now);
    WrappedDifference(Integral(h, BaseInQuote, 0, now), Integral(h, BaseInQuote, 0, start.timestamp));
    QuotientSeesWrap(Integral(h, BaseInQuote, start.timestamp, now), now - start.timestamp);
  }

  /** The answer lies between the least and the greatest price in force in the averaged interval. */
  lemma TwapBetweenPrices(us: seq<Reading>, now: u64, window: u64, lo: nat, hi: nat)
    requires Chronological(us) && (forall u :: u in us ==> u.time <= now)
    requires Run(us).snaps != []
    requires Twap(Run(us), now, window).Ok?
    requires var start := Anchor(Run(us), SatSub(now, window)).timestamp;
             && Integral(Accepted(us), BaseInQuote, start, now) < U128_MOD
             && forall t :: start <= t < now ==> lo <= PriceAt(Accepted(us), BaseInQuote, t) <= hi
    ensures lo <= Twap(Run(us), now, window).value <= hi
  {
    hide Run, Accepted, Integral, PriceAt, Anchor, IsAnchor, Chronological;
    assert Run(us).state.Some?;
    hide Twap;
    TwapIsExactAverage(us, now, window);
    var start := Anchor(Run(us), SatSub(now, window)).timestamp;
    var integral := Integral(Accepted(us), BaseInQuote, start, now);
    IntegralBetween(Accepted(us), BaseInQuote, start, now, lo, hi);
    FloorBetween(integral, now - start, lo, hi);
  }

  lemma FloorBetween(integral: nat, span: nat, lo: nat, hi: nat)
    requires span > 0 && lo * span <= integral <= hi * span
    ensures lo <= integral / span <= hi
  {
    FloorDivAtLeast(integral, span, lo);
    assert (hi + 1) * span == hi * span + span;
    FloorDivAtMost(integral, span, hi);
  }

  /** No product of the extrapolation from the last accepted update leaves u128. */
  ghost predicate PriceFits(h: seq<Reading>, side: Side, t: nat)
    requires h != []
  {
    var u := h[|h| - 1];
    t > u.time ==>
      && (if side.BaseInQuote? then u.reserve1 else u.reserve0) * 1_000_000_000_000_000_000 < U128_MOD
      && PriceOf(u, side) * (t - u.time) < U128_MOD
  }

  /** Which updates take effect, exactly: those with positive reserves, unless pricing the time since the
      last one overflows. */
  lemma UpdateAcceptedIff(us: seq<Reading>, u: Reading)
    requires Chronological(us) && (forall v :: v in us ==> v.time <= u.time)
    ensures Updated(Run(us), u).Ok? <==>
            && u.reserve0 > 0 && u.reserve1 > 0
            && (Accepted(us) == [] || (PriceFits(Accepted(us), BaseInQuote, u.time) && PriceFits(Accepted(us), QuoteInBase, u.time)))
  {
    hide Run, Accepted, RingShape, RingExact, Integral;
    RunIsReachable(us);
    LastAcceptedNotAfter(us, u.time);
    AcceptedFrom(Run(us), Accepted(us), u);
  }

  lemma AcceptedFrom(p: Pool, h: seq<Reading>, u: Reading)
    requires Reachable(p, h) && (h != [] ==> h[|h| - 1].time <= u.time)
    ensures Updated(p, u).Ok? <==>
            && u.reserve0 > 0 && u.reserve1 > 0
            && (h == [] || (PriceFits(h, BaseInQuote, u.time) && PriceFits(h, QuoteInBase, u.time)))
  {
    hide RingShape, RingExact, Integral, Checkpointed, PriceOf, StepPrice;
    if h != [] {
      PriceIsFloor(h[|h| - 1], BaseInQuote);
      PriceIsFloor(h[|h| - 1], QuoteInBase);
      ContributionIff(h[|h| - 1], BaseInQuote, u.time);
      ContributionIff(h[|h| - 1], QuoteInBase, u.time);
      hide PriceFits, Contribution;
    }
  }

  lemma ContributionIff(u: Reading, side: Side, t: nat)
    requires u.reserve0 > 0 && u.reserve1 > 0 && t >= u.time
    ensures var (own, other) := if side.BaseInQuote? then (u.reserve0, u.reserve1) else (u.reserve1, u.reserve0);
            t > u.time ==> (Contribution(own, other, t - u.time).Ok? <==> PriceFits([u], side, t))
    ensures forall h :: h != [] && h[|h| - 1] == u ==> (PriceFits(h, side, t) <==> PriceFits([u], side, t))
  {
    PriceIsFloor(u, side);
    hide PriceOf, StepPrice;
  }

  /** Which queries answer, exactly: windows of 25 s or more, after some update, with an entry at or before
      the target or else 25 s of history, unless pricing the time since the last update overflows. */
  lemma QueryAnswersIff(us: seq<Reading>, now: u64, window: u64)
    requires Chronological(us) && (forall u :: u in us ==> u.time <= now)
    ensures Twap(Run(us), now, window).Ok? <==>
            && window >= 25 && Accepted(us) != [] && PriceFits(Accepted(us), BaseInQuote, now)
            && var snaps := Run(us).snaps;
               || (exists s :: s in snaps && s.timestamp + window <= now)
               || (if snaps == [] then Accepted(us)[|Accepted(us)| - 1].time else snaps[0].timestamp) + 25 <= now
  {
    hide Run, Accepted, Twap, RingExact, Integral;
    RunIsReachable(us);
    LastAcceptedNotAfter(us, now);
    CoverageIsExact(Run(us), now, window);
    if Accepted(us) != [] {
      CoveredFrom(Run(us), Accepted(us), now, window);
      ProjectedIff(Run(us), Accepted(us), now);
    }
    hide PriceFits, Covered, Projected, RingShape;
  }

  lemma CoveredFrom(p: Pool, h: seq<Reading>, now: u64, window: u64)
    requires h != [] && Reachable(p, h) && h[|h| - 1].time <= now
    ensures Covered(p, now, window) <==>
            && window >= 25
            && (|| (exists s :: s in p.snaps && s.timestamp + window <= now)
                || (if p.snaps == [] then h[|h| - 1].time else p.snaps[0].timestamp) + 25 <= now)
  {
    hide RingExact, Integral, LatestAtOrBefore;
    SortedRing(p.snaps, h[|h| - 1].time);
    LatestIsGreatest(p.snaps, SatSub(now, window));
    hide Sorted;
  }

  lemma ProjectedIff(p: Pool, h: seq<Reading>, now: u64)
    requires h != [] && Reachable(p, h) && h[|h| - 1].time <= now
    ensures Projected(p.state.value, now).Ok? <==> PriceFits(h, BaseInQuote, now)
  {
    hide RingShape, RingExact, Integral;
    ContributionIff(h[|h| - 1], BaseInQuote, now);
    hide Contribution, PriceOf;
  }

  /** The ring is non-empty exactly when some update took effect at second 60 or later. */
  lemma RingNonEmptyIff(us: seq<Reading>)
    requires Chronological(us)
    ensures Run(us).snaps != [] <==> exists u :: u in Accepted(us) && u.time >= SNAPSHOT_INTERVAL_SECS
  {
    RunIsReachable(us);
    var h := Accepted(us);
    if h != [] {
      AcceptedChronological(us);
      assert h[|h| - 1] in h;
    }
  }

  lemma {:induction false} AcceptedChronological(us: seq<Reading>)
    requires Chronological(us)
    ensures Chronological(Accepted(us))
  {
    if us == [] {
    } else {
      var front := us[..|us| - 1];
      assert us == front + [us[|us| - 1]];
      AcceptedChronological(front);
      AcceptedIsPart(front);
      var u := us[|us| - 1];
      assert forall v :: v in front ==> v.time <= u.time;
      assert forall i :: 0 <= i < |Accepted(front)| ==> Accepted(front)[i] in Accepted(front);
    }
  }

  // ---------------------------------------------------------------------------
  // Anchors: full rings, and updates in the queried second
  // ---------------------------------------------------------------------------

  /** A full ring spans 1439 intervals, so every window up to 86340 s finds an anchor in it. */
  lemma FullRingHasAnchor(us: seq<Reading>, now: u64, window: u64)
    requires Chronological(us) && (forall u :: u in us ==> u.time <= now)
    requires |Run(us).snaps| == MAX_SNAPSHOTS
    requires window <= (MAX_SNAPSHOTS - 1) * SNAPSHOT_INTERVAL_SECS
    ensures LatestAtOrBefore(Run(us).snaps, SatSub(now, window)).Some?
  {
    RunIsReachable(us);
    LastAcceptedNotAfter(us, now);
    var snaps := Run(us).snaps;
    var last := Accepted(us)[|Accepted(us)| - 1].time;
    RingGap(snaps, last, 0, MAX_SNAPSHOTS - 1);
    SortedRing(snaps, last);
    LatestIsGreatest(snaps, SatSub(now, window));
    assert snaps[0] in snaps;
  }

  /** Removing the oldest entry and adding one newer than the target keeps the lookup,
      provided the second-oldest entry is not newer than the target. */
  lemma {:induction false} LookupAfterRotation(snaps: seq<TwapSnapshot>, s: TwapSnapshot, target: nat)
    requires Sorted(snaps) && |snaps| >= 2 && s.timestamp > target
    requires snaps[1].timestamp <= target
    ensures LatestAtOrBefore(snaps[1..] + [s], target) == LatestAtOrBefore(snaps, target)
  {
    assert (snaps[1..] + [s])[..|snaps| - 1] == snaps[1..];
    LookupWithoutOldest(snaps, target);
  }

  lemma {:induction false} LookupWithoutOldest(snaps: seq<TwapSnapshot>, target: nat)
    requires |snaps| >= 2 && snaps[1].timestamp <= target
    ensures LatestAtOrBefore(snaps[1..], target) == LatestAtOrBefore(snaps, target)
  {
    if snaps[|snaps| - 1].timestamp > target {
      assert snaps[1..][..|snaps| - 2] == snaps[..|snaps| - 1][1..];
      LookupWithoutOldest(snaps[..|snaps| - 1], target);
    }
  }

  /** Whether an update at `now` would push out the oldest entry. */
  predicate Rotates(snaps: seq<TwapSnapshot>, now: u64) {
    && |snaps| >= MAX_SNAPSHOTS
    && SatSub(now, snaps[|snaps| - 1].timestamp) >= SNAPSHOT_INTERVAL_SECS
    && Evictable(snaps[0], now)
  }

  /** Projecting to `now` before or after an update at `now` gives the same accumulator. */
  lemma ProjectionIsNeutral(p: Pool, u: Reading)
    requires p.state.Some? && p.state.value.lastReserve0 > 0 && p.state.value.lastReserve1 > 0
    requires p.state.value.lastTimestamp <= u.time
    requires Updated(p, u).Ok?
    ensures Projected(Updated(p, u).value.state.value, u.time) == Projected(p.state.value, u.time)
  {
    var s := p.state.value;
    var a := Accumulated(s, u.time).value;
    assert Projected(Updated(p, u).value.state.value, u.time) == Ok(a.price0Cumulative);
  }

  /** So does the lookup of any target before the update, as long as what rotates out is not the anchor. */
  lemma LookupIsNeutral(snaps: seq<TwapSnapshot>, last: nat, s: TwapPoolState, target: nat)
    requires RingShape(snaps, last) && snaps != [] && target < s.lastTimestamp
    requires Rotates(snaps, s.lastTimestamp) ==> snaps[1].timestamp <= target
    ensures LatestAtOrBefore(Checkpointed(snaps, s), target) == LatestAtOrBefore(snaps, target)
    ensures Checkpointed(snaps, s) != []
    ensures LatestAtOrBefore(snaps, target).None? ==> Checkpointed(snaps, s)[0] == snaps[0]
  {
    SortedRing(snaps, last);
    LatestIsGreatest(snaps, target);
    var snap := TwapSnapshot(s.lastTimestamp, s.price0Cumulative, s.price1Cumulative);
    if Rotates(snaps, s.lastTimestamp) {
      assert snaps[1] in snaps;
      LookupAfterRotation(snaps, snap, target);
    } else if Checkpointed(snaps, s) != snaps {
      assert (snaps + [snap])[..|snaps|] == snaps;
    }
  }

  /** An update in the queried second, with any reserves, accepted or not, and whether or not it
      checkpoints, leaves the answer as it was, unless it evicts and the next entry is too new. */
  lemma SameSecondUpdateIsNeutral(us: seq<Reading>, u: Reading, window: u64)
    requires Chronological(us) && (forall v :: v in us ==> v.time <= u.time)
    requires Run(us).snaps != [] && MIN_WINDOW_SECS <= window
    requires Rotates(Run(us).snaps, u.time) ==> Run(us).snaps[1].timestamp <= SatSub(u.time, window)
    ensures Twap(Run(us + [u]), u.time, window) == Twap(Run(us), u.time, window)
    ensures Run(us + [u]).snaps != []
  {
    hide Integral, PriceAt, LatestAtOrBefore, Accumulated, Contribution, Checkpointed, Projected, Accepted;
    assert (us + [u])[..|us|] == us;
    RunIsReachable(us);
    LastAcceptedNotAfter(us, u.time);
    var p, h := Run(us), Accepted(us);
    if Updated(p, u).Ok? {
      var p' := Updated(p, u).value;
      ProjectionIsNeutral(p, u);
      LookupIsNeutral(p.snaps, h[|h| - 1].time, p'.state.value, SatSub(u.time, window));
    }
  }

  lemma AppendAtNow(us: seq<Reading>, more: seq<Reading>, now: nat)
    requires Chronological(us) && (forall u :: u in us ==> u.time <= now)
    requires forall u :: u in more ==> u.time == now
    ensures Chronological(us + more)
  {
  }

  /** Any number of updates in the queried second change no answer for windows of 25 to 86340 s. */
  lemma {:induction false} SameSecondUpdatesAreNeutral(us: seq<Reading>, more: seq<Reading>, now: u64, window: u64)
    requires Chronological(us) && (forall u :: u in us ==> u.time <= now)
    requires forall u :: u in more ==> u.time == now
    requires Run(us).snaps != []
    requires MIN_WINDOW_SECS <= window <= (MAX_SNAPSHOTS - 1) * SNAPSHOT_INTERVAL_SECS
    ensures Twap(Run(us + more), now, window) == Twap(Run(us), now, window)
    ensures Run(us + more).snaps != []
    decreases |more|
  {
    hide Twap, Accepted, PriceAt, Integral;
    if more == [] {
      assert us + more == us;
    } else {
      var front := more[..|more| - 1];
      var u := more[|more| - 1];
      assert us + more == (us + front) + [u];
      SameSecondUpdatesAreNeutral(us, front, now, window);
      assert forall v :: v in us + front ==> v.time <= now;
      AppendAtNow(us, front, now);
      RunIsReachable(us + front);
      LastAcceptedNotAfter(us + front, now);
      var snaps := Run(us + front).snaps;
      if Rotates(snaps, now) {
        RingGap(snaps, Accepted(us + front)[|Accepted(us + front)| - 1].time, 1, MAX_SNAPSHOTS - 1);
      }
      SameSecondUpdateIsNeutral(us + front, u, window);
    }
  }

  // ---------------------------------------------------------------------------
  // The documented 86400 s window is sixty seconds too long
  // ---------------------------------------------------------------------------

  const GAP_END: nat := 200_000

  /** One reading at second 60, a long silence, then one a minute. */
  function SparseTime(k: nat): nat {
    if k == 0 then 60 else GAP_END + 60 * (k - 1)
  }

  function SparseRun(n: nat): (us: seq<Reading>)
    requires n <= MAX_SNAPSHOTS + 1
    ensures |us| == n
    ensures forall k :: 0 <= k < n ==> us[k] == Reading(SparseTime(k), 1, 1)
  {
    if n == 0 then [] else SparseRun(n - 1) + [Reading(SparseTime(n - 1), 1, 1)]
  }

  lemma {:induction false} SparseRunFillsRing(n: nat)
    requires 1 <= n <= MAX_SNAPSHOTS
    ensures Run(SparseRun(n)).state.Some?
    ensures var s := Run(SparseRun(n)).state.value;
            s.lastTimestamp == SparseTime(n - 1) && s.lastReserve0 == 1 && s.lastReserve1 == 1
    ensures var snaps := Run(SparseRun(n)).snaps;
            |snaps| == n && forall k :: 0 <= k < n ==> snaps[k].timestamp == SparseTime(k)
  {
    assert SparseRun(n)[..n - 1] == SparseRun(n - 1);
    if n == 1 {
      assert Run(SparseRun(0)) == Pool(None, []);
    } else {
      SparseRunFillsRing(n - 1);
      assert StepPrice(1, 1) == PRICE_SCALE;
    }
  }

  /** The next minute evicts the reading of second 60. */
  lemma SparseRunRotates()
    ensures Chronological(SparseRun(MAX_SNAPSHOTS + 1))
    ensures var p := Run(SparseRun(MAX_SNAPSHOTS + 1));
            && p.state.Some? && p.state.value.lastTimestamp == SparseTime(MAX_SNAPSHOTS)
            && |p.snaps| == MAX_SNAPSHOTS
            && forall k :: 0 <= k < MAX_SNAPSHOTS ==> p.snaps[k].timestamp == SparseTime(k + 1)
  {
    var n := MAX_SNAPSHOTS;
    SparseRunFillsRing(n);
    var us := SparseRun(n + 1);
    assert us[..n] == SparseRun(n);
    assert StepPrice(1, 1) == PRICE_SCALE;
  }

  /** The bound of 86340 s is exact, so the documented maximum of 86400 s is a minute too long: this
      reachable pool has a full ring that has already rotated, and no longer window finds an anchor in
      the second of its last update. A query over the maximum silently averages 86340 s instead. */
  lemma LongerWindowsMissAnchor(window: u64)
    requires window > (MAX_SNAPSHOTS - 1) * SNAPSHOT_INTERVAL_SECS
    ensures Chronological(SparseRun(MAX_SNAPSHOTS + 1))
    ensures var p := Run(SparseRun(MAX_SNAPSHOTS + 1));
            var now := SparseTime(MAX_SNAPSHOTS);
            && |p.snaps| == MAX_SNAPSHOTS
            && p.state.Some? && p.state.value.lastTimestamp == now
            && LatestAtOrBefore(p.snaps, SatSub(now, window)).None?
            && Twap(p, now, window).Ok?
            && now - Anchor(p, SatSub(now, window)).timestamp == 86_340
  {
    SparseRunRotates();
    LatestIsAt(Run(SparseRun(MAX_SNAPSHOTS + 1)).snaps, SatSub(SparseTime(MAX_SNAPSHOTS), window), 0);
  }
}
