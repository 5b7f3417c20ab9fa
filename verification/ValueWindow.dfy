/** The tumbling value cap of the bridge, the same for both directions
    (stellar-lend/contracts/bridge/src/lib.rs). */
module ValueWindow {
  import opened Numeric

  datatype AdmitError = NegativeAmount | CapIsZero | TotalOverflow | CapExceeded

  datatype Window = Window(cap: i128, size: u64, start: u64, total: i128)

  datatype Transfer = Transfer(amount: i128, time: u64)

  /** A window whose end has passed restarts at `now`; one whose end overflows u64 never ends. */
  function Rolled(w: Window, now: u64): Window {
    if now < w.start then w
    else if w.start + w.size <= U64_MAX && now >= w.start + w.size then w.(start := now, total := 0)
    else w
  }

  /** Window after an admission attempt: it may have rolled even when the amount is then rejected. */
  function Admit(w: Window, t: Transfer): (Window, Result<(), AdmitError>) {
    if t.amount < 0 then (w, Err(NegativeAmount))
    else if w.cap == 0 then (w, Err(CapIsZero))
    else
      var r := Rolled(w, t.time);
      if !InI128(r.total + t.amount) then (r, Err(TotalOverflow))
      else if r.total + t.amount > r.cap then (r, Err(CapExceeded))
      else (r.(total := r.total + t.amount), Ok(()))
  }

  /** Reconfiguration: a fresh window from `now`. */
  function Configured(w: Window, cap: i128, size: u64, now: u64): Option<Window> {
    if cap < 0 || size == 0 then None else Some(Window(cap, size, now, 0))
  }

  function Run(w: Window, ts: seq<Transfer>): Window {
    if ts == [] then w else Admit(Run(w, ts[..|ts| - 1]), ts[|ts| - 1]).0
  }

  /** Value admitted by a run at times in `[a, b)`. */
  function AdmittedIn(w: Window, ts: seq<Transfer>, a: nat, b: nat): int {
    if ts == [] then 0
    else
      var front, t := ts[..|ts| - 1], ts[|ts| - 1];
      AdmittedIn(w, front, a, b)
      + if Admit(Run(w, front), t).1.Ok? && a <= t.time < b then t.amount else 0
  }

  ghost predicate Chronological(w: Window, ts: seq<Transfer>) {
    && (forall i :: 0 <= i < |ts| ==> w.start <= ts[i].time)
    && (forall i, j :: 0 <= i < j < |ts| ==> ts[i].time <= ts[j].time)
  }

  ghost predicate Fresh(w: Window) {
    w.cap >= 0 && w.size > 0 && w.total == 0
  }

  /** State of a run: the window holds at most the cap and starts no later than the last attempt. */
  lemma {:induction false} RunShape(w: Window, ts: seq<Transfer>)
    requires Fresh(w) && Chronological(w, ts)
    ensures var r := Run(w, ts);
            && r.cap == w.cap && r.size == w.size && 0 <= r.total <= r.cap
            && w.start <= r.start
            && (ts != [] ==> r.start <= ts[|ts| - 1].time)
            && (ts == [] ==> r.start == w.start)
  {
    if ts == [] {
    } else {
      RunShape(w, ts[..|ts| - 1]);
    }
  }

  /** Reconfiguration is refused exactly for a negative cap or an empty window, and otherwise starts afresh. */
  lemma ConfiguredIsFresh(w: Window, cap: i128, size: u64, now: u64)
    ensures Configured(w, cap, size, now).Some? <==> cap >= 0 && size > 0
    ensures Configured(w, cap, size, now).Some? ==>
              var c := Configured(w, cap, size, now).value;
              Fresh(c) && c.cap == cap && c.size == size && c.start == now
  {
  }

  /** When the window that an attempt at `now` falls into opened, if the current one opened at `start`. */
  function OpeningAt(start: nat, size: nat, now: nat): nat {
    if start + size <= now && start + size <= U64_MAX then now else start
  }

  /** When the current window opened: attempts reopen it, admitted or not, unless they are refused before
      the clock is read. */
  function Opening(w: Window, ts: seq<Transfer>): nat {
    if ts == [] then w.start
    else
      var front, t := ts[..|ts| - 1], ts[|ts| - 1];
      if t.amount < 0 || w.cap == 0 then Opening(w, front) else OpeningAt(Opening(w, front), w.size, t.time)
  }

  /** The stored window is what the attempts make of it: it opened then, and its total is what has been
      admitted since. */
  lemma {:induction false} WindowIsExact(w: Window, ts: seq<Transfer>, end: nat)
    requires Fresh(w) && Chronological(w, ts)
    requires forall i :: 0 <= i < |ts| ==> ts[i].time < end
    ensures Run(w, ts).start == Opening(w, ts)
    ensures Run(w, ts).total == AdmittedIn(w, ts, Opening(w, ts), end)
  {
    if ts == [] {
    } else {
      var front, t := ts[..|ts| - 1], ts[|ts| - 1];
      WindowIsExact(w, front, end);
      RunShape(w, front);
      AttemptMoves(Run(w, front), t);
      hide Admit;
      if Run(w, ts).start != Run(w, front).start {
        NothingLater(w, front, t.time, end);
      }
    }
  }

  lemma AttemptMoves(r: Window, t: Transfer)
    requires 0 <= r.total <= r.cap && r.size > 0 && r.start <= t.time
    ensures var (r', outcome) := Admit(r, t);
            var opening := OpeningAt(r.start, r.size, t.time);
            var since := if opening == r.start then r.total else 0;
            && (outcome.Ok? <==> t.amount >= 0 && r.cap > 0 && t.amount + since <= r.cap)
            && r'.start == (if t.amount < 0 || r.cap == 0 then r.start else opening)
            && r'.total == (if r'.start == r.start then r.total else 0) + (if outcome.Ok? then t.amount else 0)
  {
  }

  /** Before its last window is over, a run has admitted nothing after it. */
  lemma {:induction false} NothingLater(w: Window, ts: seq<Transfer>, a: nat, end: nat)
    requires Fresh(w) && Chronological(w, ts) && a >= Run(w, ts).start + w.size && Run(w, ts).start + w.size <= U64_MAX
    ensures AdmittedIn(w, ts, a, end) == 0
  {
    if ts == [] {
    } else {
      RunShape(w, ts[..|ts| - 1]);
      RunShape(w, ts);
      NothingLater(w, ts[..|ts| - 1], a, end);
    }
  }

  /** Which attempts are admitted, exactly, after any run from a fresh window: non-negative amounts that,
      with all that was admitted since the window of the attempt opened, stay within a positive cap. */
  lemma AdmittedIff(w: Window, ts: seq<Transfer>, t: Transfer)
    requires Fresh(w) && Chronological(w, ts) && w.start <= t.time
    requires forall i :: 0 <= i < |ts| ==> ts[i].time <= t.time
    ensures Admit(Run(w, ts), t).1.Ok? <==>
            && t.amount >= 0 && w.cap > 0
            && t.amount + AdmittedIn(w, ts, OpeningAt(Opening(w, ts), w.size, t.time), t.time + 1) <= w.cap
  {
    hide Admit, Run, AdmittedIn, Opening, OpeningAt, Chronological, Fresh;
    ShapeNow(w, ts, t.time);
    AdmittedSinceOpening(w, ts, t.time);
    AttemptMoves(Run(w, ts), t);
  }

  lemma ShapeNow(w: Window, ts: seq<Transfer>, now: u64)
    requires Fresh(w) && Chronological(w, ts) && w.start <= now && forall i :: 0 <= i < |ts| ==> ts[i].time <= now
    ensures var r := Run(w, ts);
            r.cap == w.cap && r.size == w.size > 0 && 0 <= r.total <= r.cap && r.start <= now
  {
    RunShape(w, ts);
  }

  lemma AdmittedSinceOpening(w: Window, ts: seq<Transfer>, now: u64)
    requires Fresh(w) && Chronological(w, ts) && forall i :: 0 <= i < |ts| ==> ts[i].time <= now
    ensures var r := Run(w, ts);
            var opening := OpeningAt(r.start, w.size, now);
            && r.start == Opening(w, ts)
            && AdmittedIn(w, ts, opening, now + 1) == if opening == r.start then r.total else 0
  {
    WindowIsExact(w, ts, now + 1);
    hide Run, AdmittedIn, Opening, Chronological;
    var r := Run(w, ts);
    if OpeningAt(r.start, w.size, now) != r.start {
      NothingLater(w, ts, now, now + 1);
    }
  }

  /** What `[a, a + size)` can have admitted, by where it lies relative to the current window. */
  ghost predicate IntervalBound(r: Window, a: nat, sum: int) {
    && 0 <= sum <= 2 * r.cap
    && (a > r.start - r.size ==> sum <= r.total + r.cap)
    && (a >= r.start ==> sum <= r.total)
    && (a >= r.start + r.size ==> sum == 0)
  }

  lemma AttemptKeepsIntervalBound(r: Window, t: Transfer, a: nat, sum: int)
    requires 0 <= r.total <= r.cap && r.size > 0 && r.start <= t.time
    requires IntervalBound(r, a, sum)
    ensures var (r', outcome) := Admit(r, t);
            IntervalBound(r', a, sum + if outcome.Ok? && a <= t.time < a + r.size then t.amount else 0)
  {
  }

  lemma {:induction false} AdmittedSoFar(w: Window, ts: seq<Transfer>, a: nat)
    requires Fresh(w) && Chronological(w, ts)
    ensures IntervalBound(Run(w, ts), a, AdmittedIn(w, ts, a, a + w.size))
  {
    hide Admit;
    if ts == [] {
    } else {
      var front, t := ts[..|ts| - 1], ts[|ts| - 1];
      AdmittedSoFar(w, front, a);
      RunShape(w, front);
      AttemptKeepsIntervalBound(Run(w, front), t, a, AdmittedIn(w, front, a, a + w.size));
    }
  }

  /** Over any run, from a fresh window and with a clock that never runs back, any time interval of one
      window length admits at most twice the cap. */
  lemma AnyIntervalAdmitsAtMostTwiceCap(w: Window, ts: seq<Transfer>, a: nat)
    requires Fresh(w) && Chronological(w, ts)
    ensures AdmittedIn(w, ts, a, a + w.size) <= 2 * w.cap
  {
    AdmittedSoFar(w, ts, a);
    RunShape(w, ts);
  }

  /** An attempt either adds to the window or starts a new one, at least a window length later. */
  lemma AttemptOpensWindow(r: Window, t: Transfer)
    requires 0 <= r.total <= r.cap && r.size > 0 && r.start <= t.time
    ensures var (r', outcome) := Admit(r, t);
            var amount := if outcome.Ok? then t.amount else 0;
            if r'.start == r.start then r'.total == r.total + amount
            else r'.start >= r.start + r.size && r'.total == amount
  {
  }

  /** Windows started so far: each took at least one window length, and each admitted at most the cap. */
  lemma {:induction false} WindowsStarted(w: Window, ts: seq<Transfer>, end: nat) returns (n: nat)
    requires Fresh(w) && Chronological(w, ts)
    requires forall i :: 0 <= i < |ts| ==> ts[i].time < end
    ensures Run(w, ts).start >= w.start + n * w.size
    ensures AdmittedIn(w, ts, 0, end) <= n * w.cap + Run(w, ts).total
  {
    n := 0;
    if ts == [] {
    } else {
      var front, t := ts[..|ts| - 1], ts[|ts| - 1];
      n := WindowsStarted(w, front, end);
      RunShape(w, front);
      AttemptOpensWindow(Run(w, front), t);
      hide Admit, Chronological;
      if Run(w, ts).start != Run(w, front).start {
        assert (n + 1) * w.size == n * w.size + w.size;
        assert (n + 1) * w.cap == n * w.cap + w.cap;
        n := n + 1;
      }
    }
  }

  /** The amortised rate: by time `t` the total admitted is at most the cap times the number of whole
      window lengths since the start, plus one. */
  lemma TotalByTime(w: Window, ts: seq<Transfer>, t: u64)
    requires Fresh(w) && Chronological(w, ts) && w.start <= t
    requires forall i :: 0 <= i < |ts| ==> ts[i].time <= t
    ensures AdmittedIn(w, ts, 0, t + 1) <= w.cap * ((t - w.start) / w.size + 1)
  {
    hide AdmittedIn, Run, Chronological;
    var n := WindowsStarted(w, ts, t + 1);
    RunShape(w, ts);
    var r := Run(w, ts);
    assert r.start <= t;
    AmortisedRate(w.cap, w.size, t - w.start, n);
  }

  lemma AmortisedRate(cap: nat, size: nat, elapsed: nat, n: nat)
    requires size > 0 && n * size <= elapsed
    ensures n * cap + cap <= cap * (elapsed / size + 1)
  {
    FloorDivAtLeast(elapsed, size, n);
    MulMono(n + 1, elapsed / size + 1, cap);
    assert (n + 1) * cap == n * cap + cap;
  }

  /** Twice the cap is attained: the cap is per tumbling window, not per rolling one. A transfer of the
      whole cap in the last second of a window and another in the next second are both admitted. */
  lemma TwiceCapIsAttained(cap: i128, size: u64, start: u64)
    requires cap > 0 && size >= 2 && start + size <= U64_MAX
    ensures var w := Window(cap, size, start, 0);
            var ts := [Transfer(cap, start + size - 1), Transfer(cap, start + size)];
            var a := start + size - 1;
            && Fresh(w) && Chronological(w, ts)
            && AdmittedIn(w, ts, a, a + size) == 2 * cap
  {
    var w := Window(cap, size, start, 0);
    var t0, t1 := Transfer(cap, start + size - 1), Transfer(cap, start + size);
    var ts := [t0, t1];
    assert ts[..1] == [t0] && [t0][..0] == [];
    assert Run(w, []) == w;
    assert Run(w, [t0]) == Admit(w, t0).0;
    assert AdmittedIn(w, [t0], start + size - 1, start + size - 1 + size) == cap;
  }

  /** Configurations under which tumbling windows and rolling ones cannot be told apart: nothing is
      admitted, a window is a single second, or the first window never ends. */
  predicate RollingEqualsTumbling(w: Window) {
    w.cap == 0 || w.size == 1 || w.start + w.size > U64_MAX
  }

  /** The interval bound in those configurations. */
  ghost predicate SingleBound(r: Window, a: nat, sum: int) {
    && 0 <= sum <= r.cap
    && ((r.size > 1 && r.start + r.size > U64_MAX) || a >= r.start ==> sum <= r.total)
    && (a > r.start && r.size == 1 ==> sum == 0)
  }

  lemma AttemptKeepsSingleBound(r: Window, t: Transfer, a: nat, sum: int)
    requires 0 <= r.total <= r.cap && r.size > 0 && r.start <= t.time
    requires RollingEqualsTumbling(r) && SingleBound(r, a, sum)
    ensures var (r', outcome) := Admit(r, t);
            && RollingEqualsTumbling(r')
            && SingleBound(r', a, sum + if outcome.Ok? && a <= t.time < a + r.size then t.amount else 0)
  {
  }

  lemma {:induction false} SingleSoFar(w: Window, ts: seq<Transfer>, a: nat)
    requires Fresh(w) && Chronological(w, ts) && RollingEqualsTumbling(w)
    ensures RollingEqualsTumbling(Run(w, ts))
    ensures SingleBound(Run(w, ts), a, AdmittedIn(w, ts, a, a + w.size))
  {
    if ts == [] {
    } else {
      hide Admit, RollingEqualsTumbling, SingleBound;
      var front, t := ts[..|ts| - 1], ts[|ts| - 1];
      SingleSoFar(w, front, a);
      RunShape(w, front);
      AttemptKeepsSingleBound(Run(w, front), t, a, AdmittedIn(w, front, a, a + w.size));
    }
  }

  ghost predicate CapHoldsFrom(w: Window, ts: seq<Transfer>, a: nat) {
    Chronological(w, ts) ==> AdmittedIn(w, ts, a, a + w.size) <= w.cap
  }

  ghost predicate RollingCapHolds(w: Window) {
    forall ts, a: nat :: CapHoldsFrom(w, ts, a)
  }

  /** When the cap is a rolling one, exactly: from a fresh window, every interval of one window length of
      every run admits at most the cap if and only if the cap is zero, the window is one second long, or
      its end lies beyond the last timestamp. */
  lemma RollingCapIff(w: Window)
    requires Fresh(w)
    ensures RollingCapHolds(w) <==> RollingEqualsTumbling(w)
  {
    if RollingEqualsTumbling(w) {
      forall ts, a: nat ensures CapHoldsFrom(w, ts, a) {
        if Chronological(w, ts) {
          SingleSoFar(w, ts, a);
          RunShape(w, ts);
        }
      }
    } else {
      TwiceCapIsAttained(w.cap, w.size, w.start);
      var ts := [Transfer(w.cap, w.start + w.size - 1), Transfer(w.cap, w.start + w.size)];
      var a: nat := w.start + w.size - 1;
      hide AdmittedIn;
      assert !CapHoldsFrom(w, ts, a);
    }
  }
}
