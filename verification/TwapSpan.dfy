/** How much more than the requested window a query may average
    (stellar-lend/contracts/hello-world/src/amm_twap.rs). */
module TwapSpan {
  import opened Numeric
  import opened TwapPool
  import opened TwapHistory

  /** A full ring spans at least 1439 intervals and refuses every checkpoint until its oldest entry is two
      maximal windows old, so after its newest entry it may refuse for this long. */
  const MAX_REFUSAL_SECS: nat :=
    MAX_TWAP_WINDOW_SECS * EVICTION_SAFETY_FACTOR - (MAX_SNAPSHOTS - 1) * SNAPSHOT_INTERVAL_SECS

  /** Accepted updates come at most `gap` seconds apart. */
  ghost predicate Frequent(h: seq<Reading>, gap: nat) {
    forall i :: 0 < i < |h| ==> h[i].time <= h[i - 1].time + gap
  }

  /** No two neighbours in the ring, and no last update, are further apart than refusals allow. */
  ghost predicate Gapped(snaps: seq<TwapSnapshot>, last: nat, gap: nat) {
    && (forall i :: 0 < i < |snaps| ==> snaps[i].timestamp <= snaps[i - 1].timestamp + MAX_REFUSAL_SECS + gap)
    && (snaps != [] ==> last <= snaps[|snaps| - 1].timestamp + MAX_REFUSAL_SECS)
  }

  lemma CheckpointKeepsGaps(snaps: seq<TwapSnapshot>, last: nat, s: TwapPoolState, gap: nat)
    requires RingShape(snaps, last) && Gapped(snaps, last, gap)
    requires last <= s.lastTimestamp <= last + gap
    ensures Gapped(Checkpointed(snaps, s), s.lastTimestamp, gap)
  {
    if Checkpointed(snaps, s) == snaps {
      RefusedSoon(snaps, last, s);
    } else {
      var kept := if |snaps| == MAX_SNAPSHOTS then snaps[1..] else snaps;
      assert Checkpointed(snaps, s) == kept + [TwapSnapshot(s.lastTimestamp, s.price0Cumulative, s.price1Cumulative)];
    }
    hide Checkpointed, RingShape;
  }

  /** Without a checkpoint, an update is not long after the newest entry. */
  lemma RefusedSoon(snaps: seq<TwapSnapshot>, last: nat, s: TwapPoolState)
    requires RingShape(snaps, last) && Checkpointed(snaps, s) == snaps
    ensures snaps != [] ==> s.lastTimestamp <= snaps[|snaps| - 1].timestamp + MAX_REFUSAL_SECS
  {
    if |snaps| == MAX_SNAPSHOTS {
      RingGap(snaps, last, 0, MAX_SNAPSHOTS - 1);
      hide RingShape;
    }
  }

  /** One accepted update, at most `gap` seconds after the last. */
  lemma UpdateKeepsGaps(p: Pool, h: seq<Reading>, u: Reading, gap: nat)
    requires Reachable(p, h) && Updated(p, u).Ok?
    requires h != [] ==> h[|h| - 1].time <= u.time <= h[|h| - 1].time + gap && Gapped(p.snaps, h[|h| - 1].time, gap)
    ensures Gapped(Updated(p, u).value.snaps, u.time, gap)
  {
    if h != [] {
      hide Accumulated, Gapped;
      CheckpointKeepsGaps(p.snaps, h[|h| - 1].time, Updated(p, u).value.state.value, gap);
    }
  }

  lemma {:induction false} RunKeepsGaps(us: seq<Reading>, gap: nat)
    requires Chronological(us) && Accepted(us) != [] && Frequent(Accepted(us), gap)
    ensures Gapped(Run(us).snaps, Accepted(us)[|Accepted(us)| - 1].time, gap)
  {
    hide Updated, Gapped, Reachable;
    var front, u := us[..|us| - 1], us[|us| - 1];
    var h := Accepted(front);
    if Updated(Run(front), u).Ok? {
      RunIsReachable(front);
      LastAcceptedNotAfter(front, u.time);
      if h == [] {
      } else {
        assert (h + [u])[|h|] == u && (h + [u])[|h| - 1] == h[|h| - 1];
        assert forall i :: 0 <= i < |h| ==> (h + [u])[i] == h[i];
        RunKeepsGaps(front, gap);
      }
      UpdateKeepsGaps(Run(front), h, u, gap);
    } else {
      RunKeepsGaps(front, gap);
    }
  }

  /** Over every run whose accepted updates, up to now, come at most `gap` seconds apart: an answer
      averages fewer than 86460 + gap seconds more than were asked for. */
  lemma AveragedSpanIsBounded(us: seq<Reading>, now: u64, window: u64, gap: nat)
    requires Chronological(us) && (forall u :: u in us ==> u.time <= now)
    requires Accepted(us) != [] && Frequent(Accepted(us), gap)
    requires now <= Accepted(us)[|Accepted(us)| - 1].time + gap
    requires window >= MIN_WINDOW_SECS
    ensures Run(us).state.Some?
    ensures now - Anchor(Run(us), SatSub(now, window)).timestamp < window + MAX_REFUSAL_SECS + gap
  {
    hide Run, Accepted, Gapped, RingExact, RingShape;
    RunIsReachable(us);
    RunKeepsGaps(us, gap);
    LastAcceptedNotAfter(us, now);
    if Run(us).snaps != [] {
      SpanOfRing(Run(us).snaps, Accepted(us)[|Accepted(us)| - 1].time, now, window, gap);
    }
  }

  lemma SpanOfRing(snaps: seq<TwapSnapshot>, last: nat, now: u64, window: u64, gap: nat)
    requires RingShape(snaps, last) && Gapped(snaps, last, gap) && snaps != []
    requires last <= now <= last + gap && window >= MIN_WINDOW_SECS
    ensures match LatestAtOrBefore(snaps, SatSub(now, window))
            case Some(s) => now - s.timestamp < window + MAX_REFUSAL_SECS + gap
            case None => now - snaps[0].timestamp < window
  {
    var target := SatSub(now, window);
    SortedRing(snaps, last);
    LatestIsGreatest(snaps, target);
    var found := LatestAtOrBefore(snaps, target);
    if found.Some? {
      var k :| 0 <= k < |snaps| && snaps[k] == found.value;
      if k + 1 < |snaps| {
        assert snaps[k + 1] in snaps && snaps[k + 1].timestamp > snaps[k].timestamp;
      }
    } else {
      assert snaps[0] in snaps;
    }
  }

  // ---------------------------------------------------------------------------
  // The bound is attained for every gap
  // ---------------------------------------------------------------------------

  /** The pool after a run of unit reserves: checkpoints `[lo, hi)` of a schedule, and the last update. */
  ghost predicate Follows(p: Pool, last: nat, schedule: nat -> nat, lo: nat, hi: nat) {
    && p.state.Some?
    && p.state.value.lastTimestamp == last && p.state.value.lastReserve0 == 1 && p.state.value.lastReserve1 == 1
    && RingFollows(p.snaps, schedule, lo, hi)
  }

  ghost predicate RingFollows(snaps: seq<TwapSnapshot>, schedule: nat -> nat, lo: nat, hi: nat) {
    lo <= hi && |snaps| == hi - lo && forall i :: 0 <= i < |snaps| ==> snaps[i].timestamp == schedule(lo + i)
  }

  /** The last second at which a ring that starts at second 60 refuses. */
  const LAST_REFUSAL: nat := SNAPSHOT_INTERVAL_SECS + MAX_TWAP_WINDOW_SECS * EVICTION_SAFETY_FACTOR

  /** An update a second up to the last refusal, `gap` seconds of silence, and an update a second again. */
  function SecondTime(k: nat, gap: nat): nat {
    if k < LAST_REFUSAL then k + 1 else k + gap
  }

  function SecondRun(n: nat, gap: nat): (us: seq<Reading>)
    requires n + gap <= U64_MAX
    ensures |us| == n
    ensures forall k :: 0 <= k < n ==> us[k] == Reading(SecondTime(k, gap), 1, 1)
  {
    if n == 0 then [] else SecondRun(n - 1, gap) + [Reading(SecondTime(n - 1, gap), 1, 1)]
  }

  /** Its checkpoints: one a minute for a day, and one a minute after the silence. */
  function SecondSchedule(gap: nat): nat -> nat {
    j => if j < MAX_SNAPSHOTS then 60 * (j + 1) else LAST_REFUSAL + gap + 60 * (j - MAX_SNAPSHOTS)
  }

  function SecondsEvicted(n: nat): nat {
    if n <= LAST_REFUSAL then 0 else (n - LAST_REFUSAL - 1) / 60 + 1
  }

  function SecondsWritten(n: nat): nat {
    if n <= LAST_REFUSAL then Min(n / 60, MAX_SNAPSHOTS) else MAX_SNAPSHOTS + SecondsEvicted(n)
  }

  ghost predicate AfterSeconds(p: Pool, n: nat, gap: nat)
    requires n >= 1
  {
    Follows(p, SecondTime(n - 1, gap), SecondSchedule(gap), SecondsEvicted(n), SecondsWritten(n))
  }

  /** An update of unit reserves takes effect, whatever the silence before it. */
  lemma UnitUpdate(p: Pool, last: nat, u: Reading)
    requires p.state.Some? && u.reserve0 == 1 && u.reserve1 == 1 && last <= u.time
    requires p.state.value.lastTimestamp == last && p.state.value.lastReserve0 == 1 && p.state.value.lastReserve1 == 1
    ensures Updated(p, u).Ok? && Updated(p, u).value.state.Some?
    ensures var s := Updated(p, u).value.state.value;
            && s.lastTimestamp == u.time && s.lastReserve0 == 1 && s.lastReserve1 == 1
            && Updated(p, u).value.snaps == Checkpointed(p.snaps, s)
  {
    assert StepPrice(1, 1) == PRICE_SCALE;
  }

  lemma OneMoreSecond(p: Pool, n: nat, gap: nat)
    requires 1 <= n < LAST_REFUSAL + 60 * MAX_SNAPSHOTS && 1 <= gap && n + gap <= U64_MAX && AfterSeconds(p, n, gap)
    ensures var r := Updated(p, Reading(SecondTime(n, gap), 1, 1));
            r.Ok? && AfterSeconds(r.value, n + 1, gap)
  {
    var u := Reading(SecondTime(n, gap), 1, 1);
    UnitUpdate(p, SecondTime(n - 1, gap), u);
    hide Updated;
    if n < LAST_REFUSAL {
      EarlySecond(p.snaps, n, gap, Updated(p, u).value.state.value);
    } else {
      RotatingSecond(p.snaps, n, gap, Updated(p, u).value.state.value);
    }
    hide Checkpointed;
  }

  lemma EarlySecond(snaps: seq<TwapSnapshot>, n: nat, gap: nat, s: TwapPoolState)
    requires 1 <= n < LAST_REFUSAL && s.lastTimestamp == n + 1
    requires RingFollows(snaps, SecondSchedule(gap), 0, Min(n / 60, MAX_SNAPSHOTS))
    ensures RingFollows(Checkpointed(snaps, s), SecondSchedule(gap), 0, Min((n + 1) / 60, MAX_SNAPSHOTS))
  {
    var last := if snaps == [] then 0 else snaps[|snaps| - 1].timestamp;
    assert last == 60 * |snaps|;
    if n >= 60 * MAX_SNAPSHOTS {
      assert Checkpointed(snaps, s) == snaps;
    } else {
      assert |snaps| == n / 60;
    }
  }

  lemma RotatingSecond(snaps: seq<TwapSnapshot>, n: nat, gap: nat, s: TwapPoolState)
    requires LAST_REFUSAL <= n < LAST_REFUSAL + 60 * MAX_SNAPSHOTS && gap >= 1 && s.lastTimestamp == n + gap
    requires RingFollows(snaps, SecondSchedule(gap), SecondsEvicted(n), SecondsWritten(n))
    ensures RingFollows(Checkpointed(snaps, s), SecondSchedule(gap), SecondsEvicted(n + 1), SecondsWritten(n + 1))
  {
    var m := n - LAST_REFUSAL;
    var e := SecondsEvicted(n);
    assert |snaps| == MAX_SNAPSHOTS && SecondsEvicted(n + 1) == m / 60 + 1;
    if m % 60 == 0 {
      assert e == m / 60;
      assert snaps[0].timestamp == 60 * (e + 1);
    } else {
      assert e == m / 60 + 1;
      assert snaps[MAX_SNAPSHOTS - 1].timestamp == LAST_REFUSAL + gap + 60 * (m / 60);
    }
  }

  lemma FirstSecond(gap: nat)
    ensures var r := Updated(Pool(None, []), Reading(1, 1, 1));
            r.Ok? && AfterSeconds(r.value, 1, gap)
  {
  }

  lemma {:induction false} SecondRunState(n: nat, gap: nat)
    requires 1 <= n <= LAST_REFUSAL + 60 * MAX_SNAPSHOTS && 1 <= gap && n + gap <= U64_MAX
    ensures AfterSeconds(Run(SecondRun(n, gap)), n, gap)
    ensures Accepted(SecondRun(n, gap)) == SecondRun(n, gap)
  {
    hide AfterSeconds, Updated;
    assert SecondRun(n, gap)[..n - 1] == SecondRun(n - 1, gap);
    if n == 1 {
      assert Run(SecondRun(0, gap)) == Pool(None, []);
      FirstSecond(gap);
    } else {
      SecondRunState(n - 1, gap);
      OneMoreSecond(Run(SecondRun(n - 1, gap)), n - 1, gap);
    }
  }

  /** What the bound asks of a run and a query, and the query attaining it. */
  ghost predicate AttainsBound(us: seq<Reading>, now: u64, window: u64, gap: nat) {
    && Chronological(us) && (forall u :: u in us ==> u.time <= now)
    && Accepted(us) != [] && Frequent(Accepted(us), gap)
    && now <= Accepted(us)[|Accepted(us)| - 1].time + gap
    && Run(us).state.Some? && Twap(Run(us), now, window).Ok?
    && now - Anchor(Run(us), SatSub(now, window)).timestamp == window + MAX_REFUSAL_SECS + gap - 1
  }

  /** The bound is exact for every gap, of a second or more, and every window of 25 to 86340 s: with an
      update a second, one silence of `gap` seconds once the ring is about to rotate, and a query whose
      target is the last second of that silence. */
  lemma SpanBoundIsAttained(window: u64, gap: nat)
    requires MIN_WINDOW_SECS <= window <= (MAX_SNAPSHOTS - 1) * SNAPSHOT_INTERVAL_SECS
    requires gap >= 1 && LAST_REFUSAL + window + gap <= U64_MAX
    ensures AttainsBound(SecondRun(LAST_REFUSAL + window, gap), LAST_REFUSAL + window + gap - 1, window, gap)
  {
    var n := LAST_REFUSAL + window;
    hide Run, Accepted, SecondRun, Chronological, Frequent, AfterSeconds, LatestAtOrBefore, Anchor, Twap;
    SecondRunState(n, gap);
    SecondRunPace(n, gap);
    AnchorAfterSeconds(Run(SecondRun(n, gap)), n + gap - 1, window, gap);
  }

  lemma SecondRunPace(n: nat, gap: nat)
    requires n >= 1 && gap >= 1 && n + gap <= U64_MAX
    ensures var us := SecondRun(n, gap);
            && Chronological(us) && Frequent(us, gap)
            && us[n - 1].time == SecondTime(n - 1, gap) && forall u :: u in us ==> u.time <= SecondTime(n - 1, gap)
  {
  }

  lemma AnchorAfterSeconds(p: Pool, now: u64, window: u64, gap: nat)
    requires MIN_WINDOW_SECS <= window <= (MAX_SNAPSHOTS - 1) * SNAPSHOT_INTERVAL_SECS
    requires gap >= 1 && now == LAST_REFUSAL + window + gap - 1
    requires AfterSeconds(p, LAST_REFUSAL + window, gap)
    ensures p.state.Some? && Twap(p, now, window).Ok?
    ensures now - Anchor(p, SatSub(now, window)).timestamp == window + MAX_REFUSAL_SECS + gap - 1
  {
    LatestIsAt(p.snaps, now - window, MAX_SNAPSHOTS - SecondsEvicted(LAST_REFUSAL + window));
  }

  // ---------------------------------------------------------------------------
  // Refusals
  // ---------------------------------------------------------------------------

  /** An update that takes effect, a checkpoint interval or more after the newest entry, and writes none. */
  ghost predicate Refused(p: Pool, u: Reading) {
    && Updated(p, u).Ok? && p.snaps != []
    && u.time >= p.snaps[|p.snaps| - 1].timestamp + SNAPSHOT_INTERVAL_SECS
    && Updated(p, u).value.snaps == p.snaps
  }

  /** Updates come at least `gap` seconds apart. */
  ghost predicate Spaced(h: seq<Reading>, gap: nat) {
    forall i :: 0 < i < |h| ==> h[i].time >= h[i - 1].time + gap
  }

  /** Every entry the ring held when it was first full has been evicted since. */
  ghost predicate TurnedOver(us: seq<Reading>) {
    exists n :: 0 <= n <= |us| && FullBefore(Run(us[..n]).snaps, Run(us).snaps)
  }

  ghost predicate FullBefore(full: seq<TwapSnapshot>, snaps: seq<TwapSnapshot>) {
    |full| == MAX_SNAPSHOTS && snaps != [] && full[MAX_SNAPSHOTS - 1].timestamp < snaps[0].timestamp
  }

  /** More than this far apart, updates age a full ring past two windows before the next one comes. */
  const SPARSE: nat := MAX_TWAP_WINDOW_SECS * EVICTION_SAFETY_FACTOR / MAX_SNAPSHOTS + 1

  /** Ring entries of a sparse run are as far apart as its updates. */
  ghost predicate RingSpaced(snaps: seq<TwapSnapshot>, last: nat) {
    && (forall i :: 0 < i < |snaps| ==> snaps[i].timestamp >= snaps[i - 1].timestamp + SPARSE)
    && (forall i :: 0 <= i < |snaps| ==> snaps[i].timestamp <= last)
  }

  lemma {:induction false} RingSpacing(snaps: seq<TwapSnapshot>, last: nat, k: nat)
    requires RingSpaced(snaps, last) && k < |snaps|
    ensures snaps[k].timestamp >= snaps[0].timestamp + SPARSE * k
  {
    if k == 0 {
    } else {
      RingSpacing(snaps, last, k - 1);
    }
  }

  lemma UpdateKeepsSpacing(p: Pool, last: nat, u: Reading)
    requires Updated(p, u).Ok? && (p.snaps == [] || (RingSpaced(p.snaps, last) && u.time >= last + SPARSE))
    ensures RingSpaced(Updated(p, u).value.snaps, u.time)
  {
    var s := Updated(p, u).value.state.value;
    assert s.lastTimestamp == u.time && Updated(p, u).value.snaps == Checkpointed(p.snaps, s);
    hide Updated;
    CheckpointKeepsSpacing(p.snaps, last, s);
  }

  lemma CheckpointKeepsSpacing(snaps: seq<TwapSnapshot>, last: nat, s: TwapPoolState)
    requires snaps == [] || (RingSpaced(snaps, last) && s.lastTimestamp >= last + SPARSE)
    ensures RingSpaced(Checkpointed(snaps, s), s.lastTimestamp)
  {
    if Checkpointed(snaps, s) != snaps {
      var kept := if |snaps| >= MAX_SNAPSHOTS then snaps[1..] else snaps;
      assert Checkpointed(snaps, s) == kept + [TwapSnapshot(s.lastTimestamp, s.price0Cumulative, s.price1Cumulative)];
      hide Checkpointed;
    }
  }

  lemma {:induction false} RunKeepsSpacing(us: seq<Reading>)
    requires Spaced(Accepted(us), SPARSE)
    ensures var h := Accepted(us);
            if h == [] then Run(us).snaps == [] else RingSpaced(Run(us).snaps, h[|h| - 1].time)
  {
    if us == [] {
    } else {
      hide Updated, RingSpaced;
      var front, u := us[..|us| - 1], us[|us| - 1];
      var h := Accepted(front);
      assert forall i :: 0 <= i < |h| ==> (h + [u])[i] == h[i];
      assert forall i :: 0 <= i < |h| ==> Accepted(us)[i] == h[i];
      RunKeepsSpacing(front);
      if Updated(Run(front), u).Ok? {
        assert (h + [u])[|h|] == u;
        UpdateKeepsSpacing(Run(front), if h == [] then 0 else h[|h| - 1].time, u);
      }
    }
  }

  /** Updates more than two minutes apart are never refused a checkpoint, in any run and at any time. */
  lemma SparseUpdatesAreNotRefused(us: seq<Reading>, u: Reading)
    requires Spaced(Accepted(us) + [u], SPARSE)
    ensures !Refused(Run(us), u)
  {
    var h, snaps := Accepted(us), Run(us).snaps;
    assert forall i :: 0 <= i < |h| ==> (h + [u])[i] == h[i];
    assert (h + [u])[|h|] == u;
    RunKeepsSpacing(us);
    hide Run, Accepted, Accumulated;
    if |snaps| >= MAX_SNAPSHOTS {
      RingSpacing(snaps, h[|h| - 1].time, MAX_SNAPSHOTS - 1);
    }
  }

  /** One update every two minutes. */
  function TwoMinuteRun(n: nat): (us: seq<Reading>)
    requires n <= 2 * MAX_SNAPSHOTS + 2
    ensures |us| == n
    ensures forall k :: 0 <= k < n ==> us[k] == Reading(120 * (k + 1), 1, 1)
  {
    if n == 0 then [] else TwoMinuteRun(n - 1) + [Reading(120 * n, 1, 1)]
  }

  /** Its checkpoints: every update but the 1441st. */
  function TwoMinuteSchedule(): nat -> nat {
    j => 120 * if j < MAX_SNAPSHOTS then j + 1 else j + 2
  }

  ghost predicate AfterTwoMinutes(p: Pool, n: nat) {
    var evicted := SatSub(n, MAX_SNAPSHOTS + 1);
    Follows(p, 120 * n, TwoMinuteSchedule(), evicted, if n <= MAX_SNAPSHOTS then n else MAX_SNAPSHOTS + evicted)
  }

  lemma TwoMoreMinutes(p: Pool, n: nat)
    requires 1 <= n <= 2 * MAX_SNAPSHOTS && AfterTwoMinutes(p, n)
    ensures var r := Updated(p, Reading(120 * (n + 1), 1, 1));
            r.Ok? && AfterTwoMinutes(r.value, n + 1)
  {
    assert StepPrice(1, 1) == PRICE_SCALE;
  }

  lemma FirstTwoMinutes()
    ensures var r := Updated(Pool(None, []), Reading(120, 1, 1));
            r.Ok? && AfterTwoMinutes(r.value, 1)
  {
  }

  lemma {:induction false} TwoMinuteRunState(n: nat)
    requires 1 <= n <= 2 * MAX_SNAPSHOTS + 1
    ensures AfterTwoMinutes(Run(TwoMinuteRun(n)), n)
    ensures Accepted(TwoMinuteRun(n)) == TwoMinuteRun(n)
  {
    hide AfterTwoMinutes, Updated;
    assert TwoMinuteRun(n)[..n - 1] == TwoMinuteRun(n - 1);
    if n == 1 {
      assert Run(TwoMinuteRun(0)) == Pool(None, []);
      FirstTwoMinutes();
    } else {
      TwoMinuteRunState(n - 1);
      TwoMoreMinutes(Run(TwoMinuteRun(n - 1)), n - 1);
    }
  }

  lemma TwoMinutePrefix(m: nat, n: nat)
    requires m <= n <= 2 * MAX_SNAPSHOTS + 2
    ensures TwoMinuteRun(n)[..m] == TwoMinuteRun(m)
  {
  }

  /** A refusal although every original entry is gone, in a run spaced at least `gap` seconds apart. */
  ghost predicate RecurringRefusal(us: seq<Reading>, u: Reading, gap: nat) {
    Chronological(us + [u]) && Spaced(Accepted(us) + [u], gap) && TurnedOver(us) && Refused(Run(us), u)
  }

  lemma TwoMinutesRecur()
    ensures RecurringRefusal(TwoMinuteRun(2 * MAX_SNAPSHOTS + 1), Reading(120 * (2 * MAX_SNAPSHOTS + 2), 1, 1), 120)
  {
    var n := 2 * MAX_SNAPSHOTS + 1;
    var us, u := TwoMinuteRun(n), Reading(120 * (n + 1), 1, 1);
    TwoMinuteRunState(n);
    TwoMinuteRunState(MAX_SNAPSHOTS);
    TwoMinutePrefix(MAX_SNAPSHOTS, n);
    hide Run, Accepted;
    TwoMinutesRefused(Run(us), u);
    assert FullBefore(Run(us[..MAX_SNAPSHOTS]).snaps, Run(us).snaps);
    TwoMinutePace(n);
    hide TwoMinuteRun, Refused, AfterTwoMinutes, Chronological, Spaced;
  }

  lemma TwoMinutePace(n: nat)
    requires n <= 2 * MAX_SNAPSHOTS + 2
    ensures var us := TwoMinuteRun(n) + [Reading(120 * (n + 1), 1, 1)];
            Chronological(us) && Spaced(us, 120)
  {
    var us := TwoMinuteRun(n) + [Reading(120 * (n + 1), 1, 1)];
    assert forall k :: 0 <= k <= n ==> us[k] == Reading(120 * (k + 1), 1, 1);
    hide TwoMinuteRun;
  }

  lemma TwoMinutesRefused(p: Pool, u: Reading)
    requires AfterTwoMinutes(p, 2 * MAX_SNAPSHOTS + 1) && u == Reading(120 * (2 * MAX_SNAPSHOTS + 2), 1, 1)
    ensures Refused(p, u)
  {
    assert StepPrice(1, 1) == PRICE_SCALE;
  }

  /** When refusals outlive the first filling of the ring, exactly: a run whose updates come at least `gap`
      seconds apart can be refused a checkpoint after a full turnover if and only if `gap` is at most two
      minutes. */
  lemma RefusalsRecurIff(gap: nat)
    ensures (exists us, u :: RecurringRefusal(us, u, gap)) <==> gap <= 120
  {
    if gap <= 120 {
      TwoMinutesRecur();
      var n := 2 * MAX_SNAPSHOTS + 1;
      hide Chronological, TurnedOver, Refused;
      assert RecurringRefusal(TwoMinuteRun(n), Reading(120 * (n + 1), 1, 1), gap);
    } else {
      forall us, u ensures !RecurringRefusal(us, u, gap) {
        if Spaced(Accepted(us) + [u], gap) {
          SparseUpdatesAreNotRefused(us, u);
        }
      }
    }
  }
}
