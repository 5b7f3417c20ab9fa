/** Time-weighted average price: accumulator, snapshot ring and query
    (stellar-lend/contracts/hello-world/src/amm_twap.rs). */
module TwapPool {
  import opened Numeric

  const MIN_WINDOW_SECS: nat := 25
  const SNAPSHOT_INTERVAL_SECS: nat := 60
  const MAX_TWAP_WINDOW_SECS: nat := 86_400
  const MAX_SNAPSHOTS: nat := 1_440
  const EVICTION_SAFETY_FACTOR: nat := 2
  const PRICE_SCALE: nat := 1_000_000_000_000_000_000

  datatype TwapError =
    | ZeroReserves
    | ArithmeticOverflow
    | WindowTooShort
    | NoObservations
    | InsufficientHistory
    | ZeroLengthWindow

  datatype TwapPoolState = TwapPoolState(
    price0Cumulative: u128,
    price1Cumulative: u128,
    lastTimestamp: u64,
    lastReserve0: u128,
    lastReserve1: u128)

  datatype TwapSnapshot = TwapSnapshot(timestamp: u64, price0Cumulative: u128, price1Cumulative: u128)

  /** What storage holds for one asset. */
  datatype Pool = Pool(state: Option<TwapPoolState>, snaps: seq<TwapSnapshot>)

  /** One call of the accumulator: ledger time and the new reserves. */
  datatype Reading = Reading(time: u64, reserve0: u128, reserve1: u128)

  // ---------------------------------------------------------------------------
  // Specification of one update and of one query
  // ---------------------------------------------------------------------------

  function StepPrice(base: u128, quote: u128): nat
    requires base > 0
  {
    quote * PRICE_SCALE / base
  }

  /** Step price times elapsed seconds; either u128 product aborts the call when it does not fit. */
  function Contribution(base: u128, quote: u128, elapsed: nat): Result<u128, TwapError>
    requires base > 0
  {
    if quote * PRICE_SCALE >= U128_MOD || StepPrice(base, quote) * elapsed >= U128_MOD then
      Err(ArithmeticOverflow)
    else
      Ok(StepPrice(base, quote) * elapsed)
  }

  function WrappingAdd(a: u128, b: u128): u128 {
    if a + b >= U128_MOD then a + b - U128_MOD else a + b
  }

  function WrappingSub(a: u128, b: u128): u128 {
    if a >= b then a - b else a - b + U128_MOD
  }

  function Accumulated(s: TwapPoolState, now: u64): Result<TwapPoolState, TwapError> {
    var elapsed := SatSub(now, s.lastTimestamp);
    if elapsed > 0 && s.lastReserve0 > 0 && s.lastReserve1 > 0 then
      var c0 :- Contribution(s.lastReserve0, s.lastReserve1, elapsed);
      var c1 :- Contribution(s.lastReserve1, s.lastReserve0, elapsed);
      Ok(s.(price0Cumulative := WrappingAdd(s.price0Cumulative, c0),
            price1Cumulative := WrappingAdd(s.price1Cumulative, c1)))
    else
      Ok(s)
  }

  /** Ring after a possible checkpoint: throttled, and evicting only what is older than two windows. */
  function Checkpointed(snaps: seq<TwapSnapshot>, s: TwapPoolState): seq<TwapSnapshot> {
    var lastSnapTs := if snaps == [] then 0 else snaps[|snaps| - 1].timestamp;
    if SatSub(s.lastTimestamp, lastSnapTs) < SNAPSHOT_INTERVAL_SECS then snaps
    else if |snaps| >= MAX_SNAPSHOTS && !Evictable(snaps[0], s.lastTimestamp) then snaps
    else
      var kept := if |snaps| >= MAX_SNAPSHOTS then snaps[1..] else snaps;
      kept + [TwapSnapshot(s.lastTimestamp, s.price0Cumulative, s.price1Cumulative)]
  }

  predicate Evictable(oldest: TwapSnapshot, now: u64) {
    SatSub(now, oldest.timestamp) > MAX_TWAP_WINDOW_SECS * EVICTION_SAFETY_FACTOR
  }

  function Updated(p: Pool, u: Reading): Result<Pool, TwapError> {
    if u.reserve0 == 0 || u.reserve1 == 0 then Err(ZeroReserves)
    else
      var s := match p.state
        case Some(s) => s
        case None => TwapPoolState(0, 0, u.time, u.reserve0, u.reserve1);
      var a :- Accumulated(s, u.time);
      var s' := a.(lastTimestamp := u.time, lastReserve0 := u.reserve0, lastReserve1 := u.reserve1);
      Ok(Pool(Some(s'), Checkpointed(p.snaps, s')))
  }

  /** The newest snapshot not after `target`, by a scan from the newest end. */
  function LatestAtOrBefore(snaps: seq<TwapSnapshot>, target: nat): Option<TwapSnapshot> {
    if snaps == [] then None
    else if snaps[|snaps| - 1].timestamp <= target then Some(snaps[|snaps| - 1])
    else LatestAtOrBefore(snaps[..|snaps| - 1], target)
  }

  /** Accumulator projected to `now` with the stored reserves. */
  function Projected(s: TwapPoolState, now: u64): Result<u128, TwapError> {
    var elapsed := SatSub(now, s.lastTimestamp);
    if elapsed > 0 && s.lastReserve0 > 0 then
      var c :- Contribution(s.lastReserve0, s.lastReserve1, elapsed);
      Ok(WrappingAdd(s.price0Cumulative, c))
    else
      Ok(s.price0Cumulative)
  }

  /** Start of the averaged interval: the anchor for `target`, else the oldest entry, else the last update. */
  function Anchor(p: Pool, target: nat): TwapSnapshot
    requires p.state.Some?
  {
    match LatestAtOrBefore(p.snaps, target)
    case Some(s) => s
    case None =>
      if p.snaps != [] then p.snaps[0] else TwapSnapshot(p.state.value.lastTimestamp, 0, 0)
  }

  function Twap(p: Pool, now: u64, window: u64): Result<u128, TwapError> {
    if window < MIN_WINDOW_SECS then Err(WindowTooShort)
    else if p.state.None? then Err(NoObservations)
    else
      var cumulativeNow :- Projected(p.state.value, now);
      var target := SatSub(now, window);
      var start := Anchor(p, target);
      var actual := SatSub(now, start.timestamp);
      if LatestAtOrBefore(p.snaps, target).None? && actual < MIN_WINDOW_SECS then Err(InsufficientHistory)
      else if actual == 0 then Err(ZeroLengthWindow)
      else
        assert actual >= 1;
        var delta := WrappingSub(cumulativeNow, start.price0Cumulative);
        QuotientFits(delta, actual);
        Ok(delta / actual)
  }

  lemma QuotientFits(a: u128, b: nat)
    requires b > 0
    ensures 0 <= a / b < U128_MOD
  {
    MulMono(1, b, a + 1);
    FloorDivAtMost(a, b, a);
    FloorDivAtLeast(a, b, 0);
  }

  predicate Covered(p: Pool, now: u64, window: u64) {
    && window >= MIN_WINDOW_SECS
    && p.state.Some?
    && match LatestAtOrBefore(p.snaps, SatSub(now, window))
       case Some(s) => SatSub(now, s.timestamp) > 0
       case None =>
         var earliest := if p.snaps != [] then p.snaps[0].timestamp else p.state.value.lastTimestamp;
         SatSub(now, earliest) >= MIN_WINDOW_SECS
  }

  // ---------------------------------------------------------------------------
  // Ring shape and the binary search
  // ---------------------------------------------------------------------------

  ghost predicate Sorted(snaps: seq<TwapSnapshot>) {
    forall i, j :: 0 <= i < j < |snaps| ==> snaps[i].timestamp < snaps[j].timestamp
  }

  /** Number of binary digits: floor(log2 n) + 1 for n >= 1. */
  function Bits(n: nat): nat {
    if n == 0 then 0 else 1 + Bits(n / 2)
  }

  function Pow2(k: nat): nat {
    if k == 0 then 1 else 2 * Pow2(k - 1)
  }

  /** `Bits` is the base-two logarithm it is meant to be. */
  lemma {:induction false} BitsIsLog2(n: nat)
    requires n > 0
    ensures Bits(n) >= 1
    ensures Pow2(Bits(n) - 1) <= n < Pow2(Bits(n))
  {
    if n > 1 {
      BitsIsLog2(n / 2);
    } else {
      assert Bits(1) == 1 + Bits(0) == 1;
      assert Pow2(1) == 2 * Pow2(0) == 2;
    }
  }

  lemma {:induction false} BitsMonotone(m: nat, n: nat)
    requires m <= n
    ensures Bits(m) <= Bits(n)
  {
    if m == 0 {
    } else {
      BitsMonotone(m / 2, n / 2);
    }
  }

  /** The scan is characterised by its value: the one entry not after `target` whose successors all are. */
  lemma {:induction false} LatestIsAt(snaps: seq<TwapSnapshot>, target: nat, k: nat)
    requires Sorted(snaps) && k <= |snaps|
    requires forall i :: 0 <= i < k ==> snaps[i].timestamp <= target
    requires forall i :: k <= i < |snaps| ==> snaps[i].timestamp > target
    ensures LatestAtOrBefore(snaps, target) == if k == 0 then None else Some(snaps[k - 1])
  {
    if |snaps| <= k {
    } else {
      LatestIsAt(snaps[..|snaps| - 1], target, k);
    }
  }

  /** What the lookup means: the greatest timestamp not after the target; none exactly when all are newer. */
  lemma {:induction false} LatestIsGreatest(snaps: seq<TwapSnapshot>, target: nat)
    requires Sorted(snaps)
    ensures LatestAtOrBefore(snaps, target).None? <==> forall s :: s in snaps ==> s.timestamp > target
    ensures LatestAtOrBefore(snaps, target).Some? ==>
              var r := LatestAtOrBefore(snaps, target).value;
              && r in snaps && r.timestamp <= target
              && forall s :: s in snaps && s.timestamp <= target ==> s.timestamp <= r.timestamp
  {
    if snaps == [] {
    } else {
      var last := snaps[|snaps| - 1];
      var front := snaps[..|snaps| - 1];
      assert snaps == front + [last];
      if last.timestamp > target {
        LatestIsGreatest(front, target);
        assert forall s :: s in snaps <==> s in front || s == last;
      } else {
        assert last in snaps;
      }
    }
  }

  /** Binary search over `[lo, hi)`; `steps` counts the comparisons made. */
  method FindSnapshotAtOrBefore(snaps: seq<TwapSnapshot>, target: u64)
    returns (result: Option<TwapSnapshot>, steps: nat)
    requires Sorted(snaps)
    ensures result == LatestAtOrBefore(snaps, target)
    ensures steps <= Bits(|snaps|)
  {
    result, steps := None, 0;
    var lo, hi := 0, |snaps|;
    while lo < hi
      invariant 0 <= lo <= hi <= |snaps|
      invariant forall i :: 0 <= i < lo ==> snaps[i].timestamp <= target
      invariant forall i :: hi <= i < |snaps| ==> snaps[i].timestamp > target
      invariant result == if lo == 0 then None else Some(snaps[lo - 1])
      invariant steps + Bits(hi - lo) <= Bits(|snaps|)
    {
      var mid := lo + (hi - lo) / 2;
      var snap := snaps[mid];
      steps := steps + 1;
      ghost var half := (hi - lo) / 2;
      assert Bits(hi - lo) == 1 + Bits(half);
      BitsMonotone(hi - mid - 1, half);
      if snap.timestamp <= target {
        result := Some(snap);
        lo := mid + 1;
      } else {
        hi := mid;
      }
    }
    LatestIsAt(snaps, target, lo);
  }

  /** A full ring is searched in at most eleven comparisons. */
  lemma FullRingSearchCost(n: nat)
    requires n <= MAX_SNAPSHOTS
    ensures Bits(n) <= 11
  {
    assert Pow2(11) == 16 * Pow2(7) == 256 * Pow2(3) == 2048;
    if n > 0 {
      BitsIsLog2(n);
      if Bits(n) > 11 {
        Pow2Monotone(11, Bits(n) - 1);
      }
    }
  }

  lemma {:induction false} Pow2Monotone(j: nat, k: nat)
    requires j <= k
    ensures Pow2(j) <= Pow2(k)
  {
    if j >= k {
    } else {
      Pow2Monotone(j, k - 1);
    }
  }

  // ---------------------------------------------------------------------------
  // The stored pool
  // ---------------------------------------------------------------------------

  class TwapStore {
    var state: Option<TwapPoolState>
    var snaps: seq<TwapSnapshot>

    function Contents(): Pool
      reads this
    {
      Pool(state, snaps)
    }

    constructor ()
      ensures Contents() == Pool(None, [])
    {
      state, snaps := None, [];
    }

    /** `update_twap_accumulators`. A panic leaves storage as it was. */
    method Update(u: Reading) returns (outcome: Result<(), TwapError>)
      modifies this
      ensures match Updated(old(Contents()), u)
              case Ok(p) => outcome == Ok(()) && Contents() == p
              case Err(e) => outcome == Err(e) && Contents() == old(Contents())
    {
      if u.reserve0 == 0 || u.reserve1 == 0 {
        return Err(ZeroReserves);
      }
      var s := match state
        case Some(s) => s
        case None => TwapPoolState(0, 0, u.time, u.reserve0, u.reserve1);
      var elapsed := SatSub(u.time, s.lastTimestamp);
      if elapsed > 0 && s.lastReserve0 > 0 && s.lastReserve1 > 0 {
        var c0 :- Contribution(s.lastReserve0, s.lastReserve1, elapsed);
        var c1 :- Contribution(s.lastReserve1, s.lastReserve0, elapsed);
        s := s.(price0Cumulative := WrappingAdd(s.price0Cumulative, c0));
        s := s.(price1Cumulative := WrappingAdd(s.price1Cumulative, c1));
      }
      s := s.(lastTimestamp := u.time, lastReserve0 := u.reserve0, lastReserve1 := u.reserve1);
      state := Some(s);
      MaybeWriteSnapshot(s);
      return Ok(());
    }

    /** `maybe_write_snapshot`: throttle, then the eviction gate, then the append. */
    method MaybeWriteSnapshot(s: TwapPoolState)
      modifies this`snaps
      ensures snaps == Checkpointed(old(snaps), s)
    {
      var lastSnapTs := if snaps == [] then 0 else snaps[|snaps| - 1].timestamp;
      if SatSub(s.lastTimestamp, lastSnapTs) < SNAPSHOT_INTERVAL_SECS {
        return;
      }
      if |snaps| >= MAX_SNAPSHOTS {
        var oldestAge := SatSub(s.lastTimestamp, snaps[0].timestamp);
        if oldestAge <= MAX_TWAP_WINDOW_SECS * EVICTION_SAFETY_FACTOR {
          return;
        }
        snaps := snaps[1..];
      }
      snaps := snaps + [TwapSnapshot(s.lastTimestamp, s.price0Cumulative, s.price1Cumulative)];
    }

    /** `get_twap`. */
    method GetTwap(now: u64, window: u64) returns (r: Result<u128, TwapError>)
      requires Sorted(snaps)
      ensures r == Twap(Contents(), now, window)
    {
      if window < MIN_WINDOW_SECS {
        return Err(WindowTooShort);
      }
      if state.None? {
        return Err(NoObservations);
      }
      var current := state.value;
      var elapsed := SatSub(now, current.lastTimestamp);
      var cumulativeNow := current.price0Cumulative;
      if elapsed > 0 && current.lastReserve0 > 0 {
        var extrapolation :- Contribution(current.lastReserve0, current.lastReserve1, elapsed);
        cumulativeNow := WrappingAdd(cumulativeNow, extrapolation);
      }
      var start, _ := FindSnapshotAtOrBefore(snaps, SatSub(now, window));
      match start {
        case None =>
          var earliest := if snaps != [] then snaps[0] else TwapSnapshot(current.lastTimestamp, 0, 0);
          var actual := SatSub(now, earliest.timestamp);
          if actual < MIN_WINDOW_SECS {
            return Err(InsufficientHistory);
          }
          QuotientFits(WrappingSub(cumulativeNow, earliest.price0Cumulative), actual);
          return Ok(WrappingSub(cumulativeNow, earliest.price0Cumulative) / actual);
        case Some(s) =>
          var actual := SatSub(now, s.timestamp);
          if actual == 0 {
            return Err(ZeroLengthWindow);
          }
          QuotientFits(WrappingSub(cumulativeNow, s.price0Cumulative), actual);
          return Ok(WrappingSub(cumulativeNow, s.price0Cumulative) / actual);
      }
    }

    /** `has_window_coverage`. */
    method HasWindowCoverage(now: u64, window: u64) returns (covered: bool)
      requires Sorted(snaps)
      ensures covered <==> Covered(Contents(), now, window)
    {
      if window < MIN_WINDOW_SECS || state.None? {
        return false;
      }
      var start, _ := FindSnapshotAtOrBefore(snaps, SatSub(now, window));
      match start {
        case Some(s) =>
          return SatSub(now, s.timestamp) > 0;
        case None =>
          var earliest := if snaps != [] then snaps[0].timestamp else state.value.lastTimestamp;
          return SatSub(now, earliest) >= MIN_WINDOW_SECS;
      }
    }
  }

  // ---------------------------------------------------------------------------
  // Coverage and the query agree
  // ---------------------------------------------------------------------------

  /** The query answers exactly when coverage holds and the projection fits in u128. */
  lemma CoverageIsExact(p: Pool, now: u64, window: u64)
    ensures Twap(p, now, window).Ok? <==>
            Covered(p, now, window) && Projected(p.state.value, now).Ok?
    ensures !Covered(p, now, window) && (p.state.Some? ==> Projected(p.state.value, now).Ok?) ==>
              Twap(p, now, window).Err? && Twap(p, now, window).error != ArithmeticOverflow
  {
  }

  /** Coverage alone is not enough: a quote reserve of 2^127 passes it, and the query still overflows. */
  lemma CoverageMissesOverflow()
    ensures var u := Reading(1_000, 1, U128_MOD / 2);
            var r := Updated(Pool(None, []), u);
            && r.Ok?
            && Covered(r.value, 1_100, 100)
            && Twap(r.value, 1_100, 100) == Err(ArithmeticOverflow)
  {
    var u := Reading(1_000, 1, U128_MOD / 2);
    var r := Updated(Pool(None, []), u);
    var snap := TwapSnapshot(1_000, 0, 0);
    assert r.value.snaps == [] + [snap] == [snap];
    assert LatestAtOrBefore([snap], 1_000) == Some(snap);
  }
}
