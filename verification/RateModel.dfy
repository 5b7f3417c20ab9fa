/** Smoothing of the borrow rate (stellar-lend/contracts/lending/src/rate_model.rs). */
module RateModel {
  import opened Numeric

  datatype RateParams = RateParams(
    rateFloorBps: i128,
    rateCeilingBps: i128,
    maxRateChangePerLedgerBps: i128,
    hysteresisBps: i128)

  /** `checked_abs().unwrap_or(MAX)`. */
  function SatAbs(x: i128): i128 {
    if x == I128_MIN then I128_MAX else Abs(x)
  }

  function ApplyHysteresis(current: i128, target: i128, hysteresis: i128): i128 {
    var band := Max(hysteresis, 0);
    var diff := Saturate(target - current);
    if diff >= 0 then
      if diff <= band then current
      else match Checked(target - band) case Some(v) => v case None => target
    else
      if SatAbs(diff) <= band then current
      else match Checked(target + band) case Some(v) => v case None => target
  }

  function ComputeSmoothedRate(last: i128, target: i128, maxStep: i128, elapsed: nat, hysteresis: i128): i128 {
    var adjusted := ApplyHysteresis(last, target, hysteresis);
    if elapsed == 0 || maxStep == I128_MAX then adjusted
    else
      var maxChange := Saturate(maxStep * elapsed);
      var diff := Saturate(adjusted - last);
      if diff > 0 then
        match Checked(last + Min(diff, maxChange)) case Some(v) => v case None => adjusted
      else
        match Checked(last - Min(SatAbs(diff), maxChange)) case Some(v) => v case None => adjusted
  }

  ghost predicate Between(a: int, x: int, b: int) {
    a <= x <= b || b <= x <= a
  }

  /** How far a target is outside the band around a rate. */
  function Excess(current: int, target: int, band: int): nat {
    Max(0, Abs(target - current) - Max(band, 0))
  }

  function Towards(current: int, target: int, distance: int): int {
    if target >= current then current + distance else current - distance
  }

  /** Over all of `i128`, hysteresis moves the rate exactly to the edge of the band around the target;
      only a band of the greatest integer, facing a gap wider still, keeps it where it was. */
  lemma HysteresisStopsAtBand(current: i128, target: i128, hysteresis: i128)
    ensures hysteresis < I128_MAX || Abs(target - current) <= I128_MAX ==>
              ApplyHysteresis(current, target, hysteresis) == Towards(current, target, Excess(current, target, hysteresis))
    ensures hysteresis == I128_MAX ==> ApplyHysteresis(current, target, hysteresis) == current
  {
  }

  /** Over all rates and every non-negative step, smoothing never overshoots, and with time elapsed and
      a finite step it moves by at most the step per ledger. */
  lemma SmoothingIsBounded(last: i128, target: i128, maxStep: i128, elapsed: nat, hysteresis: i128)
    requires maxStep >= 0
    ensures var r := ComputeSmoothedRate(last, target, maxStep, elapsed, hysteresis);
            && Between(last, r, target)
            && Between(last, r, ApplyHysteresis(last, target, hysteresis))
            && (elapsed >= 1 && maxStep != I128_MAX ==> Abs(r - last) <= maxStep * elapsed)
  {
    HysteresisStopsAtBand(last, target, hysteresis);
    MulMono(0, maxStep, elapsed);
  }

  /** How far it moves, exactly: `maxStep` for every ledger elapsed, or the whole excess over the band,
      whichever is less. */
  lemma SmoothingIsExact(last: i128, target: i128, maxStep: i128, elapsed: nat, hysteresis: i128)
    requires elapsed >= 1 && 0 <= maxStep < I128_MAX && Abs(target - last) <= I128_MAX
    ensures ComputeSmoothedRate(last, target, maxStep, elapsed, hysteresis) ==
            Towards(last, target, Min(maxStep * elapsed, Excess(last, target, hysteresis)))
  {
    HysteresisStopsAtBand(last, target, hysteresis);
    MulMono(0, maxStep, elapsed);
  }

  /** Without a finite step the rate moves to the edge of the band at once. */
  lemma UnlimitedStepJumps(last: i128, target: i128, elapsed: nat, hysteresis: i128)
    requires Abs(target - last) <= I128_MAX
    ensures ComputeSmoothedRate(last, target, I128_MAX, elapsed, hysteresis) == Towards(last, target, Excess(last, target, hysteresis))
  {
    HysteresisStopsAtBand(last, target, hysteresis);
  }

  /** The bound needs time to pass: a second update in one ledger jumps to the edge of the band at once,
      so it leaves the rate alone exactly when the target was already within the band (or the band is the
      greatest integer). */
  lemma SameLedgerJumps(last: i128, target: i128, maxStep: i128, hysteresis: i128)
    ensures ComputeSmoothedRate(last, target, maxStep, 0, 0) == target
    ensures ComputeSmoothedRate(last, target, maxStep, 0, hysteresis) == last <==>
            Abs(target - last) <= Max(hysteresis, 0) || hysteresis == I128_MAX
  {
    HysteresisStopsAtBand(last, target, hysteresis);
    HysteresisStopsAtBand(last, target, 0);
  }

  /** `n` smoothing steps towards a fixed target, one ledger apart. */
  function Iterate(rate: i128, target: i128, maxStep: i128, hysteresis: i128, n: nat): i128 {
    if n == 0 then rate
    else ComputeSmoothedRate(Iterate(rate, target, maxStep, hysteresis, n - 1), target, maxStep, 1, hysteresis)
  }

  lemma OneStep(rate: i128, target: i128, maxStep: i128, hysteresis: i128)
    requires 1 <= maxStep < I128_MAX && Abs(target - rate) <= I128_MAX
    ensures ComputeSmoothedRate(rate, target, maxStep, 1, hysteresis) ==
            Towards(rate, target, Min(maxStep, Excess(rate, target, hysteresis)))
  {
    HysteresisStopsAtBand(rate, target, hysteresis);
  }

  /** Closed form of the iteration: after `n` steps the rate has covered `n` times the step, or the whole
      excess, whichever is less. So it enters the band after exactly excess / step steps, rounded up. */
  lemma {:induction false} IterationClosedForm(rate: i128, target: i128, maxStep: i128, hysteresis: i128, n: nat)
    requires 1 <= maxStep < I128_MAX && Abs(target - rate) <= I128_MAX
    ensures Iterate(rate, target, maxStep, hysteresis, n) ==
            Towards(rate, target, Min(maxStep * n, Excess(rate, target, hysteresis)))
  {
    hide ComputeSmoothedRate, Excess, Abs;
    if n > 0 {
      hide Towards, Min;
      IterationClosedForm(rate, target, maxStep, hysteresis, n - 1);
      var k := maxStep * (n - 1);
      assert k + maxStep == maxStep * n && k >= 0 by {
        MulMono(0, maxStep, n - 1);
      }
      StepFromDistance(rate, target, maxStep, hysteresis, k);
    } else {
      assert maxStep * n == 0;
    }
  }

  /** A step from `k` along the way leads to `k + maxStep`, or to the end of the way. */
  lemma StepFromDistance(rate: i128, target: i128, maxStep: i128, hysteresis: i128, k: int)
    requires 1 <= maxStep < I128_MAX && Abs(target - rate) <= I128_MAX && k >= 0
    ensures var e := Excess(rate, target, hysteresis);
            && InI128(Towards(rate, target, Min(k, e)))
            && ComputeSmoothedRate(Towards(rate, target, Min(k, e)), target, maxStep, 1, hysteresis)
               == Towards(rate, target, Min(k + maxStep, e))
  {
    var prev := Towards(rate, target, Min(k, Excess(rate, target, hysteresis)));
    OneStep(prev, target, maxStep, hysteresis);
  }

  /** Within the band from step ceil(excess / step) on, outside it before, and fixed once there. */
  lemma IterationConverges(rate: i128, target: i128, maxStep: i128, hysteresis: i128, n: nat)
    requires 1 <= maxStep < I128_MAX && Abs(target - rate) <= I128_MAX
    ensures var steps := (Excess(rate, target, hysteresis) + maxStep - 1) / maxStep;
            && (Abs(target - Iterate(rate, target, maxStep, hysteresis, n)) <= Max(hysteresis, 0) <==> n >= steps)
            && (n >= steps ==> Iterate(rate, target, maxStep, hysteresis, n + 1) == Iterate(rate, target, maxStep, hysteresis, n))
  {
    hide ComputeSmoothedRate, Iterate, Excess, Towards;
    IterationClosedForm(rate, target, maxStep, hysteresis, n);
    IterationClosedForm(rate, target, maxStep, hysteresis, n + 1);
    var e := Excess(rate, target, hysteresis);
    CeilDiv(e, maxStep, n);
    NextMultiple(maxStep, n);
    WayCovered(rate, target, hysteresis, maxStep * n);
    if n >= (e + maxStep - 1) / maxStep {
      assert Min(maxStep * n, e) == Min(maxStep * (n + 1), e) == e;
    }
  }

  lemma NextMultiple(s: nat, n: nat)
    ensures 0 <= s * n == n * s && s * (n + 1) == s * n + s
  {
  }

  /** The band is reached exactly when the whole excess has been covered. */
  lemma WayCovered(rate: int, target: int, hysteresis: int, k: int)
    requires k >= 0
    ensures var e := Excess(rate, target, hysteresis);
            Abs(target - Towards(rate, target, Min(k, e))) <= Max(hysteresis, 0) <==> k >= e
  {
  }

  lemma CeilDiv(e: nat, s: nat, n: nat)
    requires s > 0
    ensures n >= (e + s - 1) / s <==> n * s >= e
  {
    FloorDiv(e + s - 1, s);
    if n * s >= e {
      assert (n + 1) * s == n * s + s;
      FloorDivAtMost(e + s - 1, s, n);
    }
    if n >= (e + s - 1) / s {
      MulMono((e + s - 1) / s, n, s);
    }
  }

  // ---------------------------------------------------------------------------
  // The stored rate
  // ---------------------------------------------------------------------------

  /** What instance storage holds; ledger 0 stands for a rate never stored. */
  datatype RateState = RateState(lastRate: i128, lastTarget: i128, lastLedger: nat)

  function Clamp(x: i128, p: RateParams): i128 {
    Min(Max(x, p.rateFloorBps), p.rateCeilingBps)
  }

  function Updated(s: RateState, target: i128, ledger: nat, p: RateParams): RateState {
    var last := if s.lastLedger == 0 then target else s.lastRate;
    var elapsed := if s.lastLedger == 0 then 0 else SatSub(ledger, s.lastLedger);
    var rate := ComputeSmoothedRate(last, target, p.maxRateChangePerLedgerBps, elapsed, p.hysteresisBps);
    RateState(Clamp(rate, p), target, ledger)
  }

  class RateStore {
    var lastRate: i128
    var lastTarget: i128
    var lastLedger: nat

    function Contents(): RateState
      reads this
    {
      RateState(lastRate, lastTarget, lastLedger)
    }

    constructor ()
      ensures Contents() == RateState(0, 0, 0)
    {
      lastRate, lastTarget, lastLedger := 0, 0, 0;
    }

    /** `update_and_get_rate`. */
    method UpdateAndGetRate(target: i128, ledger: nat, p: RateParams) returns (rate: i128)
      modifies this
      ensures Contents() == Updated(old(Contents()), target, ledger, p) && rate == lastRate
    {
      var last := if lastLedger == 0 then target else lastRate;
      var elapsed := if lastLedger == 0 then 0 else SatSub(ledger, lastLedger);
      var newRate := ComputeSmoothedRate(last, target, p.maxRateChangePerLedgerBps, elapsed, p.hysteresisBps);
      rate := Clamp(newRate, p);
      lastRate := rate;
      lastTarget := target;
      lastLedger := ledger;
    }
  }

  /** What an update stores: on the first ever, the target; in a later ledger, the last rate moved towards
      the target by the step per ledger elapsed or by the excess over the band, whichever is less; either way
      brought between floor and ceiling. */
  lemma UpdateIsExact(s: RateState, target: i128, ledger: nat, p: RateParams)
    requires p.rateFloorBps <= p.rateCeilingBps && 0 <= p.maxRateChangePerLedgerBps < I128_MAX
    requires Abs(target - s.lastRate) <= I128_MAX
    ensures var r := Updated(s, target, ledger, p);
            var moved :=
              if s.lastLedger == 0 then target
              else if ledger <= s.lastLedger then Towards(s.lastRate, target, Excess(s.lastRate, target, p.hysteresisBps))
              else Towards(s.lastRate, target, Min(p.maxRateChangePerLedgerBps * (ledger - s.lastLedger),
                                                   Excess(s.lastRate, target, p.hysteresisBps)));
            && r.lastTarget == target && r.lastLedger == ledger
            && p.rateFloorBps <= r.lastRate <= p.rateCeilingBps
            && (p.rateFloorBps <= moved <= p.rateCeilingBps ==> r.lastRate == moved)
            && (moved < p.rateFloorBps ==> r.lastRate == p.rateFloorBps)
            && (moved > p.rateCeilingBps ==> r.lastRate == p.rateCeilingBps)
  {
    HysteresisStopsAtBand(s.lastRate, target, p.hysteresisBps);
    HysteresisStopsAtBand(target, target, p.hysteresisBps);
    if s.lastLedger > 0 && ledger > s.lastLedger {
      SmoothingIsExact(s.lastRate, target, p.maxRateChangePerLedgerBps, ledger - s.lastLedger, p.hysteresisBps);
    } else {
      NothingElapsed(if s.lastLedger == 0 then target else s.lastRate, target, p.maxRateChangePerLedgerBps, p.hysteresisBps);
    }
    hide ComputeSmoothedRate, ApplyHysteresis, Towards;
  }

  lemma NothingElapsed(last: i128, target: i128, maxStep: i128, hysteresis: i128)
    ensures ComputeSmoothedRate(last, target, maxStep, 0, hysteresis) == ApplyHysteresis(last, target, hysteresis)
  {
  }

  datatype Sample = Sample(target: i128, ledger: nat)

  function RunRates(s: RateState, samples: seq<Sample>, p: RateParams): RateState {
    if samples == [] then s
    else
      var last := samples[|samples| - 1];
      Updated(RunRates(s, samples[..|samples| - 1], p), last.target, last.ledger, p)
  }

  ghost predicate InRange(s: RateState, p: RateParams) {
    s.lastLedger > 0 && p.rateFloorBps <= s.lastRate <= p.rateCeilingBps
  }

  /** The rate of `r` differs from that of `s` by at most `m` per ledger between them. */
  ghost predicate DriftsAtMost(m: nat, s: RateState, r: RateState) {
    Abs(r.lastRate - s.lastRate) <= m * (r.lastLedger - s.lastLedger)
  }

  lemma ClampShortens(a: int, x: int, lo: int, hi: int)
    requires lo <= a <= hi
    ensures Abs(Min(Max(x, lo), hi) - a) <= Abs(x - a)
  {
  }

  lemma UpdateIsBounded(s: RateState, target: i128, ledger: nat, p: RateParams)
    requires InRange(s, p) && 0 <= p.maxRateChangePerLedgerBps < I128_MAX && ledger > s.lastLedger
    ensures var r := Updated(s, target, ledger, p);
            && InRange(r, p) && r.lastLedger == ledger
            && DriftsAtMost(p.maxRateChangePerLedgerBps, s, r)
  {
    SmoothingIsBounded(s.lastRate, target, p.maxRateChangePerLedgerBps, ledger - s.lastLedger, p.hysteresisBps);
    var rate := ComputeSmoothedRate(s.lastRate, target, p.maxRateChangePerLedgerBps, ledger - s.lastLedger, p.hysteresisBps);
    ClampShortens(s.lastRate, rate, p.rateFloorBps, p.rateCeilingBps);
  }

  /** Over any run of updates in ever later ledgers, whatever the targets, the stored rate stays between
      floor and ceiling and drifts by at most the step per ledger elapsed over the whole run. */
  lemma {:induction false} RunIsBounded(s: RateState, samples: seq<Sample>, p: RateParams)
    requires InRange(s, p) && 0 <= p.maxRateChangePerLedgerBps < I128_MAX
    requires samples != [] ==> s.lastLedger < samples[0].ledger
    requires forall i :: 0 < i < |samples| ==> samples[i - 1].ledger < samples[i].ledger
    ensures var r := RunRates(s, samples, p);
            && InRange(r, p)
            && r.lastLedger == (if samples == [] then s.lastLedger else samples[|samples| - 1].ledger)
            && s.lastLedger <= r.lastLedger
            && DriftsAtMost(p.maxRateChangePerLedgerBps, s, r)
  {
    if samples == [] {
    } else {
      hide Updated, InRange, DriftsAtMost;
      var front, x := samples[..|samples| - 1], samples[|samples| - 1];
      RunIsBounded(s, front, p);
      var q := RunRates(s, front, p);
      UpdateIsBounded(q, x.target, x.ledger, p);
      DriftAdds(p.maxRateChangePerLedgerBps, s, q, RunRates(s, samples, p));
    }
  }

  lemma DriftAdds(m: nat, a: RateState, b: RateState, c: RateState)
    requires a.lastLedger <= b.lastLedger <= c.lastLedger && DriftsAtMost(m, a, b) && DriftsAtMost(m, b, c)
    ensures DriftsAtMost(m, a, c)
  {
    var t, u, v := a.lastLedger, b.lastLedger, c.lastLedger;
    assert m * (v - t) == m * (v - u) + m * (u - t);
  }
}
