/**
 The vsync counter of the Raspberry Pi 4 glue as the C++ keeps it: 64-bit cycle counts, a 32-bit
 edge counter that wraps, truncating signed division. Each method is proved against `VsyncModel`.
 What the glue reads from outside (the cycle counter, the uptime, the answers of SET_VSYNC) are parameters.
 */
module VsyncDisplay {
  import opened MachineArith
  import opened VsyncModel
  import opened Calibration

  const RESYNC_MS := 30000
  const FIRST_RESYNC_MS := 2000
  const PERIOD_MIN_US := 5000
  const PERIOD_MAX_US := 50000
  const NOMINAL_PERIOD_US := 16667
  const CALIBRATION_CALLS := 17

  /** Microseconds in a number of cycles; the 64-bit product wraps. */
  function Us(hz: nat, cycles: nat): nat
    requires hz > 0
  {
    U64(cycles * 1000000) / hz
  }

  function CyclesFromUs(hz: nat, usec: nat): nat {
    U64(usec * hz) / 1000000
  }

  /** It is the rounded-down quotient, as long as the product fits. */
  lemma UsBounds(hz: nat, cycles: nat)
    requires hz > 0 && cycles * 1000000 < TWO_64
    ensures Us(hz, cycles) * hz <= cycles * 1000000 < (Us(hz, cycles) + 1) * hz
  {
    InRange64(cycles * 1000000);
    QuotientBounds(cycles * 1000000, hz);
    MulSucc(Us(hz, cycles), hz);
  }

  /** A median is taken for a period exactly from 5000 us on and up to 50000 us, the last one included in full. */
  lemma PlausibleExactly(hz: nat, median: nat)
    requires hz > 0
    ensures PERIOD_MIN_US <= Us(hz, median) <= PERIOD_MAX_US <==> 5000 * hz <= U64(median * 1000000) < 50001 * hz
  {
    var x := U64(median * 1000000);
    QuotientAtLeast(x, hz, 5000);
    QuotientAtLeast(x, hz, 50001);
  }

  /** The period used when none could be measured: 16667 us, rounded down. */
  lemma NominalPeriodBounds(hz: nat)
    requires hz < TWO_32
    ensures var p := CyclesFromUs(hz, NOMINAL_PERIOD_US); p * 1000000 <= 16667 * hz < (p + 1) * 1000000
  {
    assert U64(NOMINAL_PERIOD_US * hz) == NOMINAL_PERIOD_US * hz;
  }

  /** It is positive exactly for clocks of 60 Hz and more. */
  lemma NominalPeriodPositive(hz: nat)
    requires hz < TWO_32
    ensures CyclesFromUs(hz, NOMINAL_PERIOD_US) > 0 <==> hz >= 60
  {
    assert U64(NOMINAL_PERIOD_US * hz) == NOMINAL_PERIOD_US * hz;
  }

  /**
   The intervals between successive returns of SET_VSYNC, as the measuring loop collects them: a
   reading of zero cycles does not count as a previous return.
   */
  function Intervals(times: seq<nat>): (iv: seq<int>)
    ensures |iv| <= (if times == [] then 0 else |times| - 1)
  {
    if |times| < 2 then []
    else
      var last := |times| - 1;
      var interval := times[last] as int - times[last - 1];
      Intervals(times[..last]) + if times[last - 1] != 0 then [interval] else []
  }

  lemma NoIntervals()
    ensures Intervals([]) == []
  {
  }

  lemma IntervalsStep(times: seq<nat>, i: nat)
    requires i < |times|
    ensures Intervals(times[..i + 1]) ==
            Intervals(times[..i]) + if i > 0 && times[i - 1] != 0 then [times[i] as int - times[i - 1]] else []
  {
    assert times[..i + 1][..i] == times[..i];
  }

  lemma {:induction false} IntervalsInRange(times: seq<nat>, bound: nat)
    requires Sorted(times) && forall j | 0 <= j < |times| :: times[j] < bound
    ensures forall j | 0 <= j < |Intervals(times)| :: 0 <= Intervals(times)[j] < bound
  {
    if |times| >= 2 { IntervalsInRange(times[..|times| - 1], bound); }
  }

  /**
   Without readings of zero, and on a clock that does not run backwards: the differences of successive
   readings, all of them, in order; readings of zero at the start are dropped.
   */
  lemma {:induction false} IntervalsExactly(times: seq<nat>, zeros: nat)
    requires Sorted(times) && zeros <= |times|
    requires (forall j | 0 <= j < zeros :: times[j] == 0) && (zeros < |times| ==> times[zeros] > 0)
    ensures |Intervals(times)| == if zeros < |times| then |times| - zeros - 1 else 0
    ensures forall j | 0 <= j < |Intervals(times)| :: Intervals(times)[j] == times[zeros + j + 1] - times[zeros + j]
  {
    if |times| >= 2 {
      var last := |times| - 1;
      if zeros <= last {
        IntervalsExactly(times[..last], zeros);
      } else {
        IntervalsExactly(times[..last], last);
      }
    }
  }

  /** At least 8 intervals, with a plausible median; the product wraps. */
  predicate Usable(hz: nat, sorted: seq<nat>) {
    |sorted| >= 8 && 5000 * hz <= U64(sorted[|sorted| / 2] * 1000000) < 50001 * hz
  }

  /** The intervals in the order the median is taken in; fewer than 8 are not sorted, nor used. */
  ghost predicate Ranked(sorted: seq<nat>, iv: seq<int>) {
    if |iv| >= 8 then Sorted(sorted) && multiset(sorted) == multiset(iv) else sorted == iv
  }

  /** What a measurement leaves: the median and the last edge, or the nominal period from `next` on. */
  ghost predicate Outcome(hz: nat, sorted: seq<nat>, last: int, next: nat, period: nat, edge: nat, off: bool) {
    if Usable(hz, sorted) then period == sorted[|sorted| / 2] && edge == last && !off
    else period * 1000000 <= 16667 * hz < (period + 1) * 1000000 && edge == next && off
  }

  ghost predicate Measured(hz: nat, iv: seq<int>, last: int, next: nat, period: nat, edge: nat, off: bool) {
    exists sorted: seq<nat> | Ranked(sorted, iv) :: Outcome(hz, sorted, last, next, period, edge, off)
  }

  /** If more than half of at least 8 intervals are in [lo, hi], of 5000 to 50000 us, the period is one of them. */
  lemma MeasuredInMajority(hz: nat, iv: seq<nat>, last: int, next: nat, period: nat, edge: nat, off: bool,
                           lo: nat, hi: nat)
    requires hz < TWO_32 && Measured(hz, iv, last, next, period, edge, off)
    requires |iv| >= 8 && 2 * CountIn(iv, lo, hi) > |iv|
    requires 5000 * hz <= lo * 1000000 && hi * 1000000 < 50001 * hz
    ensures !off && lo <= period <= hi && edge == last
  {
    var sorted: seq<nat> :| Ranked(sorted, iv) && Outcome(hz, sorted, last, next, period, edge, off);
    MedianInMajority(sorted, iv, lo, hi);
    InRange64(sorted[|sorted| / 2] * 1000000);
  }

  /** So a panel whose edges come between lo and hi cycles apart is measured, and paced by a period in that range. */
  lemma SteadyPanel(hz: nat, times: seq<nat>, next: nat, period: nat, edge: nat, off: bool, lo: nat, hi: nat)
    requires hz < TWO_32 && |times| >= 9 && times[0] > 0 && Sorted(times)
    requires forall j | 0 <= j < |times| - 1 :: lo <= times[j + 1] - times[j] <= hi
    requires 5000 * hz <= lo * 1000000 && hi * 1000000 < 50001 * hz
    requires Measured(hz, Intervals(times), times[|times| - 1], next, period, edge, off)
    ensures !off && lo <= period <= hi && edge == times[|times| - 1]
  {
    hide Measured, Sorted;
    SteadyIntervals(times, lo, hi);
    var iv: seq<nat> := Intervals(times);
    AllIn(iv, lo, hi);
    MeasuredInMajority(hz, iv, times[|times| - 1], next, period, edge, off, lo, hi);
  }

  lemma SteadyIntervals(times: seq<nat>, lo: nat, hi: nat)
    requires times != [] && times[0] > 0 && Sorted(times)
    requires forall j | 0 <= j < |times| - 1 :: lo <= times[j + 1] - times[j] <= hi
    ensures |Intervals(times)| == |times| - 1
    ensures forall j | 0 <= j < |times| - 1 :: lo <= Intervals(times)[j] <= hi
  {
    IntervalsExactly(times, 0);
    forall j | 0 <= j < |times| - 1
      ensures lo <= Intervals(times)[j] <= hi
    {
      assert Intervals(times)[j] == times[j + 1] - times[j];
    }
  }

  lemma {:induction false} AllIn(iv: seq<nat>, lo: nat, hi: nat)
    requires forall j | 0 <= j < |iv| :: lo <= iv[j] <= hi
    ensures CountIn(iv, lo, hi) == |iv|
  {
    if iv != [] { AllIn(iv[1..], lo, hi); }
  }

  /** The decision taken on a median is a measurement, and its period is positive and fits. */
  lemma Decided(hz: nat, iv: seq<int>, sorted: seq<nat>, median: nat, last: nat, next: nat)
    requires 60 <= hz < TWO_32
    requires Ranked(sorted, iv) && |sorted| == |iv| && (|iv| >= 8 ==> median == sorted[|iv| / 2])
    requires forall j | 0 <= j < |iv| :: 0 <= iv[j] < TWO_62
    ensures var off := |iv| < 8 || Us(hz, median) < PERIOD_MIN_US || Us(hz, median) > PERIOD_MAX_US;
            var period := if off then CyclesFromUs(hz, NOMINAL_PERIOD_US) else median;
            Measured(hz, iv, last, next, period, if off then next else last, off) && 0 < period < TWO_62
  {
    NominalPeriodPositive(hz);
    NominalPeriodBounds(hz);
    PlausibleExactly(hz, median);
    var off := |iv| < 8 || Us(hz, median) < PERIOD_MIN_US || Us(hz, median) > PERIOD_MAX_US;
    var period := if off then CyclesFromUs(hz, NOMINAL_PERIOD_US) else median;
    hide Us, CyclesFromUs;
    assert Outcome(hz, sorted, last, next, period, if off then next else last, off);
    if !off {
      assert median in multiset(iv);
      assert U64(0 * 1000000) == 0;
    }
  }

  /** What is read around one resync: SET_VSYNC is called at `called`, fails or not, and has returned at `returned`. */
  datatype Reply = Reply(called: nat, failed: bool, returned: nat, uptime: int)

  predicate PlausibleReply(p: Predictor, r: Reply) {
    p.edge <= r.called <= r.returned < TWO_62 && (r.called - p.edge) < p.period * (TWO_32 - 1)
  }

  /** The predictor after a resync with this reply. */
  function Resynced(p: Predictor, r: Reply): (q: Predictor)
    requires p.period > 0
    ensures q.period > 0
  {
    if r.failed then p else Corrected(p, r.called, r.returned)
  }

  // ----- when SET_VSYNC is called -----

  /** When SET_VSYNC counts as last called, in milliseconds of uptime, and whether it is not used any more. */
  datatype Schedule = Schedule(lastMs: int, off: bool)

  /** A wait that blocks: the uptime it reads first, and what a resync would see. */
  datatype Wait = Wait(uptime: int, reply: Reply)

  /** The wait takes a resync. */
  predicate Resyncs(s: Schedule, w: Wait) {
    !s.off && w.uptime >= s.lastMs + 30000
  }

  function Later(s: Schedule, w: Wait): Schedule {
    if Resyncs(s, w) then Schedule(w.reply.uptime, w.reply.failed) else s
  }

  function Through(s: Schedule, ws: seq<Wait>): Schedule {
    if ws == [] then s else Later(Through(s, ws[..|ws| - 1]), ws[|ws| - 1])
  }

  /** The uptime does not run backwards. */
  predicate Ordered(ws: seq<Wait>) {
    && (forall i | 0 <= i < |ws| :: ws[i].uptime <= ws[i].reply.uptime)
    && forall i, j | 0 <= i < j < |ws| :: ws[i].reply.uptime <= ws[j].uptime
  }

  /** Wait `i` of the run takes a resync. */
  predicate ResyncsAt(s: Schedule, ws: seq<Wait>, i: nat)
    requires i < |ws|
  {
    Resyncs(Through(s, ws[..i]), ws[i])
  }

  /** The schedule tells of the last resync, if there was one. */
  lemma {:induction false} LastResync(s: Schedule, ws: seq<Wait>, i: nat)
    requires Ordered(ws) && i <= |ws|
    ensures var t := Through(s, ws[..i]);
            && s.lastMs <= t.lastMs
            && (t == s || exists j | 0 <= j < i :: ResyncsAt(s, ws, j) && t == Schedule(ws[j].reply.uptime, ws[j].reply.failed))
            && (forall j | 0 <= j < i && ResyncsAt(s, ws, j) ::
                  ws[j].reply.uptime <= t.lastMs && (ws[j].reply.failed ==> t.off))
  {
    if i > 0 {
      assert ws[..i][..i - 1] == ws[..i - 1];
      LastResync(s, ws, i - 1);
    }
  }

  /**
   Which waits take a resync, in any run after a calibration at uptime `u`: none when no period could be
   measured; otherwise exactly those from 2 s after the calibration on that come 30 s or more after every
   resync before them, as long as none of these failed.
   */
  lemma ResyncsExactly(u: int, off: bool, ws: seq<Wait>, i: nat)
    requires Ordered(ws) && i < |ws|
    ensures var s := Schedule(u - 28000, off);
            ResyncsAt(s, ws, i) <==>
            && !off && ws[i].uptime >= u + 2000
            && forall j | 0 <= j < i && ResyncsAt(s, ws, j) ::
                 !ws[j].reply.failed && ws[i].uptime >= ws[j].reply.uptime + 30000
  {
    LastResync(Schedule(u - 28000, off), ws, i);
    if off { OffStays(Schedule(u - 28000, off), ws, i); }
  }

  lemma {:induction false} OffStays(s: Schedule, ws: seq<Wait>, i: nat)
    requires s.off && i <= |ws|
    ensures Through(s, ws[..i]) == s
  {
    if i > 0 {
      assert ws[..i][..i - 1] == ws[..i - 1];
      OffStays(s, ws, i - 1);
    }
  }

  /** A sleep asked of the kernel: when, and for how long. */
  datatype Sleep = Sleep(at: nat, usec: nat)

  /** The sleep is over, in real time, no later than at cycle `edge`. */
  predicate EndsBy(s: Sleep, hz: nat, edge: int) {
    s.usec * hz <= (edge - s.at) * 1000000
  }

  /** The edge that a 32-bit count asks for at cycle `now`: the nearest one with that count, ahead or behind. */
  function Awaited(p: Predictor, now: int, count: nat): int
    requires p.period > 0
  {
    Count(p, now) - I32(U32(Count(p, now)) - count)
  }

  lemma AwaitedHasCount(p: Predictor, now: int, count: nat)
    requires p.period > 0 && count < TWO_32
    ensures U32(Awaited(p, now, count)) == count
    ensures -TWO_31 <= Count(p, now) - Awaited(p, now, count) < TWO_31
  {
    var c, d := Count(p, now), U32(Count(p, now)) - count;
    assert I32(d) == d || I32(d) == d - TWO_32 || I32(d) == d + TWO_32;
    U32Shift(count, c / 0x1_0000_0000 + (d - I32(d)) / 0x1_0000_0000);
  }

  /** Close enough, in edges, for 32-bit differences to be exact. */
  predicate InReach(p: Predictor, t: int, c: int)
    requires p.period > 0
  {
    -TWO_31 <= Count(p, t) - c < TWO_31 && 0 <= Count(p, t) - p.count < TWO_31
  }

  /** The 32-bit comparison decides exactly whether the predicted time of edge `c` has come. */
  lemma ReachedExactly(p: Predictor, t: int, c: int)
    requires p.period > 0 && InReach(p, t, c)
    ensures I32(U32(Count(p, t)) - U32(c)) >= 0 <==> t >= EdgeTime(p, c)
  {
    CountReached(p, t, c);
    U32Sum(Count(p, t), c);
    I32Recovers(Count(p, t) - c);
  }

  /** Below the awaited edge its distance from the anchor is positive and does not underflow. */
  lemma DistanceUnwrapped(p: Predictor, t: int, c: int)
    requires p.period > 0 && InReach(p, t, c) && t < EdgeTime(p, c) && 0 <= p.edge && EdgeTime(p, c) < TWO_64
    ensures 0 < c - p.count < TWO_32
    ensures U64(p.edge + U64(U32(U32(c) - U32(p.count)) * p.period)) == EdgeTime(p, c)
  {
    CountReached(p, t, c);
    hide U32, U64, Count;
    DifferenceUnwrapped(c, p.count);
    assert EdgeTime(p, c) == p.edge + (c - p.count) * p.period;
    ProductUnwrapped(p.edge, c - p.count, p.period);
  }

  lemma DifferenceUnwrapped(c: int, a: int)
    requires 0 <= c - a < TWO_32
    ensures U32(U32(c) - U32(a)) == c - a
  {
    U32Sum(c, a);
  }

  lemma ProductUnwrapped(edge: int, n: int, period: int)
    requires 0 <= edge && n >= 0 && period >= 0 && edge + n * period < TWO_64
    ensures U64(edge + U64(n * period)) == edge + n * period
  {
    MulMonotone(0, n, period);
    InRange64(n * period);
    InRange64(edge + n * period);
  }

  /** A sleep shorter than the computed wait ends before the edge, also when the microseconds wrapped. */
  lemma SleepEndsBefore(hz: nat, now: nat, at: nat, usec: nat)
    requires hz > 0 && now <= at && usec <= Us(hz, at - now)
    ensures EndsBy(Sleep(now, usec), hz, at)
  {
    var x := (at - now) * 1000000;
    assert U64(x) <= x;
    QuotientBounds(U64(x), hz);
    MulMonotone(usec, Us(hz, at - now), hz);
  }

  /**
   The sleep is called for, unless the microseconds wrap: 201 us or more are left, and it is one of
   100 ms, or leaves less than 101 us to spin.
   */
  predicate CalledFor(s: Sleep, hz: nat, edge: int) {
    (edge - s.at) * 1000000 < TWO_64 ==>
      && (edge - s.at) * 1000000 >= 201 * hz
      && (s.usec == 100000 || (edge - s.at) * 1000000 < (s.usec + 101) * hz)
  }

  /** If 201 us or more are left at the reading `now`, there is a sleep at it. */
  predicate NotSpun(sleeps: seq<Sleep>, hz: nat, edge: int, now: int) {
    201 * hz <= (edge - now) * 1000000 < TWO_64 ==> exists i | 0 <= i < |sleeps| :: sleeps[i].at == now
  }

  lemma SleepIsCalledFor(hz: nat, now: nat, at: nat)
    requires hz > 0 && now <= at
    ensures (at - now) * 1000000 < TWO_64 ==> (Us(hz, at - now) > 200 <==> (at - now) * 1000000 >= 201 * hz)
    ensures var us := Us(hz, at - now);
            us > 200 ==> CalledFor(Sleep(now, if us > 100000 then 100000 else us - 100), hz, at)
  {
    if (at - now) * 1000000 < TWO_64 {
      UsBounds(hz, at - now);
      InRange64((at - now) * 1000000);
      QuotientAtLeast((at - now) * 1000000, hz, 201);
    }
  }

  /**
   The sleeps asked for when `used` readings of the clock were taken, every second one to see how much is
   left: each is positive, at most 100 ms, over before the edge and called for, and none is missing.
   */
  ghost predicate Paced(sleeps: seq<Sleep>, clock: seq<nat>, used: nat, hz: nat, edge: int)
    requires used <= |clock|
  {
    && (forall i | 0 <= i < |sleeps| ::
          && sleeps[i].at in clock && 0 < sleeps[i].usec <= 100000
          && EndsBy(sleeps[i], hz, edge) && CalledFor(sleeps[i], hz, edge))
    && forall j | 0 <= j < used && j % 2 == 1 :: NotSpun(sleeps, hz, edge, clock[j])
  }

  lemma PacedAtFirst(clock: seq<nat>, hz: nat, edge: int)
    requires clock != []
    ensures Paced([], clock, 1, hz, edge)
  {
  }

  /** A reading with little or nothing left, and the reading of the counter that follows it. */
  lemma PacedBySpinning(sleeps: seq<Sleep>, clock: seq<nat>, rounds: nat, used: nat, more: nat, hz: nat, edge: int)
    requires used < more <= used + 2 && more <= |clock| && used == 2 * rounds + 1 && Paced(sleeps, clock, used, hz, edge)
    requires 0 <= edge - clock[used] && (edge - clock[used]) * 1000000 < TWO_64 ==> (edge - clock[used]) * 1000000 < 201 * hz
    ensures Paced(sleeps, clock, more, hz, edge)
  {
    hide EndsBy, CalledFor;
    forall j | 0 <= j < more && j % 2 == 1
      ensures NotSpun(sleeps, hz, edge, clock[j])
    {
      assert j <= used;
    }
  }

  /** A reading followed by a sleep. */
  lemma PacedBySleeping(sleeps: seq<Sleep>, s: Sleep, clock: seq<nat>, rounds: nat, used: nat, hz: nat, edge: int)
    requires used + 2 <= |clock| && used == 2 * rounds + 1 && Paced(sleeps, clock, used, hz, edge)
    requires s.at == clock[used] && 0 < s.usec <= 100000 && EndsBy(s, hz, edge) && CalledFor(s, hz, edge)
    ensures Paced(sleeps + [s], clock, used + 2, hz, edge)
  {
    hide EndsBy, CalledFor;
    var more := sleeps + [s];
    assert more[|sleeps|] == s && forall i | 0 <= i < |sleeps| :: more[i] == sleeps[i];
    forall j | 0 <= j < used + 2 && j % 2 == 1
      ensures NotSpun(more, hz, edge, clock[j])
    {
      assert j <= used;
      if j < used && exists i | 0 <= i < |sleeps| :: sleeps[i].at == clock[j] {
        var i :| 0 <= i < |sleeps| && sleeps[i].at == clock[j];
        assert more[i].at == clock[j];
      }
    }
  }

  class Display {
    const hz: nat

    var tried: bool
    var ready: bool
    var period: nat
    var edge: nat
    var edgeCount: nat
    var lastSyncMs: int
    var resyncOff: bool

    /** The edge counter as it would be without wrapping. */
    ghost var count: int

    ghost predicate Valid()
      reads this
    {
      && 60 <= hz < TWO_32
      && edgeCount == U32(count)
      && period < TWO_62 && edge < TWO_62
      && (ready ==> period > 0)
      && (!tried ==> !ready && !resyncOff)
    }

    ghost function Model(): Predictor
      reads this
    {
      Predictor(period, edge, count)
    }

    /** When a resync is due next. */
    ghost function Timing(): Schedule
      reads this
    {
      Schedule(lastSyncMs, resyncOff)
    }

    constructor (hz: nat)
      requires 60 <= hz < TWO_32
      ensures Valid() && !tried && !ready && period == 0 && edge == 0 && edgeCount == 0 && this.hz == hz
    {
      this.hz := hz;
      tried, ready, resyncOff := false, false, false;
      period, edge, edgeCount, lastSyncMs := 0, 0, 0, 0;
      count := 0;
    }

    /** The counter at cycle `now`: the model's count, wrapped to 32 bits. */
    method VsyncNow(now: nat) returns (v: nat)
      requires Valid() && edge <= now < TWO_62
      ensures period == 0 ==> v == edgeCount
      ensures period > 0 ==> v == U32(Count(Model(), now))
    {
      if period == 0 {
        return edgeCount;
      }
      v := U32(edgeCount + U32(U64(now - edge) / period));
      InRange64(now - edge);
      U32Sum(count, (now - edge) / period);
    }

    /** The measuring loop: fills `iv` and leaves the anchor at the last return of SET_VSYNC. */
    method Measure(times: seq<nat>, iv: array<nat>) returns (n: nat)
      requires |times| <= 17 && Sorted(times) && forall j | 0 <= j < |times| :: times[j] < TWO_62
      requires iv.Length == 16
      modifies iv, `edge
      ensures n <= 16 && iv[..n] == Intervals(times)
      ensures edge == if times == [] then old(edge) else times[|times| - 1]
    {
      hide Intervals, U64;
      var prev, i := 0, 0;
      n := 0;
      assert times[..0] == [];
      NoIntervals();
      while i < CALIBRATION_CALLS
        invariant 0 <= i <= |times|
        invariant n <= 16 && iv[..n] == Intervals(times[..i])
        invariant if i == 0 then prev == 0 && edge == old(edge) else prev == edge == times[i - 1]
      {
        if i == |times| {   // SET_VSYNC failed
          break;
        }
        var now := times[i];
        IntervalsStep(times, i);
        if prev != 0 {
          InRange64(now - prev);
          var interval := U64(now - prev);
          iv[n] := interval;
          n := n + 1;
          assert iv[..n] == iv[..n - 1] + [interval];
        }
        prev := now;
        edge := now;
        i := i + 1;
      }
      assert times[..i] == times;
    }

    /** The median interval, when at least 8 were collected. */
    method MeasureMedian(times: seq<nat>) returns (n: nat, median: nat, ghost sorted: seq<nat>)
      requires |times| <= 17 && Sorted(times) && forall j | 0 <= j < |times| :: times[j] < TWO_62
      modifies `edge
      ensures Ranked(sorted, Intervals(times)) && |sorted| == n == |Intervals(times)|
      ensures n >= 8 ==> median == sorted[n / 2]
      ensures edge == if times == [] then old(edge) else times[|times| - 1]
    {
      var iv := new nat[16];
      n := Measure(times, iv);
      median := 0;
      if n >= 8 {
        InsertionSort(iv, n);
        median := iv[n / 2];
      }
      sorted := iv[..n];
    }

    /**
     Measures the edge period: SET_VSYNC back to back, returning at `times` until the first failure
     and at most 17 times; the median of the intervals. `next` is the cycle counter read after them.
     */
    method Calibrate(times: seq<nat>, next: nat, uptime: int)
      requires Valid() && tried && !resyncOff && next < TWO_62
      requires |times| <= 17 && Sorted(times) && forall j | 0 <= j < |times| :: times[j] < TWO_62
      modifies this
      ensures Valid() && tried == old(tried) && ready == old(ready) && count == old(count) && edgeCount == old(edgeCount)
      ensures Measured(hz, Intervals(times), if times == [] then old(edge) else times[|times| - 1], next,
                       period, edge, resyncOff)
      ensures period > 0
      ensures lastSyncMs == uptime - 28000
    {
      var n, median, sorted := MeasureMedian(times);
      IntervalsInRange(times, TWO_62);
      Decided(hz, Intervals(times), sorted, median, edge, next);
      if n < 8 || Us(hz, median) < PERIOD_MIN_US || Us(hz, median) > PERIOD_MAX_US {
        period := CyclesFromUs(hz, NOMINAL_PERIOD_US);
        edge := next;
        resyncOff := true;
      } else {
        period := median;
      }
      lastSyncMs := uptime - (RESYNC_MS - FIRST_RESYNC_MS);
    }

    /**
     Brings the display up, on the first call: if the firmware grants the framebuffer, it is ready and
     calibrated. Any later call only says whether it is.
     */
    method Init(granted: bool, times: seq<nat>, next: nat, uptime: int) returns (ok: bool)
      requires Valid() && next < TWO_62
      requires |times| <= 17 && Sorted(times) && forall j | 0 <= j < |times| :: times[j] < TWO_62
      modifies this
      ensures Valid() && tried && ok == ready && ready == if old(tried) then old(ready) else granted
      ensures old(tried) || !granted ==> Model() == old(Model()) && Timing() == old(Timing())
      ensures !old(tried) && granted ==>
                && Measured(hz, Intervals(times), if times == [] then old(edge) else times[|times| - 1], next,
                            period, edge, resyncOff)
                && count == old(count) && lastSyncMs == uptime - 28000
    {
      if tried {
        return ready;
      }
      tried := true;
      if !granted {
        return false;
      }
      Calibrate(times, next, uptime);
      ready := true;
      return true;
    }

    /** One SET_VSYNC, to check the prediction against a real edge. */
    method Resync(r: Reply)
      requires Valid() && ready && PlausibleReply(Model(), r)
      modifies this
      ensures Valid() && tried == old(tried) && ready
      ensures Model() == if r.failed then old(Model()) else Corrected(old(Model()), r.called, r.returned)
      ensures resyncOff == (old(resyncOff) || r.failed) && lastSyncMs == r.uptime
    {
      var before := VsyncNow(r.called);
      var steps := U32(before + 1 - edgeCount);
      var predicted := U64(edge + U64(steps * period));
      lastSyncMs := r.uptime;
      if r.failed {
        resyncOff := true;
        return;
      }
      InRange64(period);
      var P := I64(period);
      var e := I64(r.returned) - I64(predicted);
      var k := TruncDiv(e + (if e >= 0 then TruncDiv(P, 2) else TruncDiv(-P, 2)), P);
      var ep := e - k * P;
      var N := steps + k;
      RegistersFollow(Model(), r, before, steps, predicted, P, e, k, ep, N);
      var ok := ep > TruncDiv(-P, 10) && ep < TruncDiv(P, 10);
      if ok {
        if N >= 30 {
          period := U64(P + TruncDiv(ep, N));
        }
        edgeCount := U32(before + 1 + U32(k));
        edge := r.returned;
        count := count + N;
      }
    }

    /**
     The wait loop: sleeps until edge `c`, whose 32-bit count is `target`. `clock` is what the cycle
     counter reads from here on; `used` of the readings are taken.
     */
    method SleepUntil(target: nat, clock: seq<nat>, ghost c: int) returns (used: nat, sleeps: seq<Sleep>)
      requires Valid() && ready && target == U32(c)
      requires Sorted(clock) && forall i | 0 <= i < |clock| :: edge <= clock[i] < TWO_62 && InReach(Model(), clock[i], c)
      requires EdgeTime(Model(), c) < TWO_64
      requires |clock| >= 2 && EdgeTime(Model(), c) <= clock[|clock| - 2]
      ensures 1 <= used <= |clock| && Count(Model(), clock[used - 1]) >= c
      ensures Paced(sleeps, clock, used, hz, EdgeTime(Model(), c))
    {
      hide U32, U64, I32, Count, InReach, EdgeTime, Us, Paced, EndsBy, CalledFor;
      ghost var p := Model();
      ghost var edgeTime := EdgeTime(p, c);
      ghost var rounds: nat := 0;
      sleeps := [];
      var v := VsyncNow(clock[0]);
      used := 1;
      PacedAtFirst(clock, hz, edgeTime);
      while I32(v - target) < 0
        invariant 1 <= used <= |clock| && used == 2 * rounds + 1 && v == U32(Count(p, clock[used - 1]))
        invariant Paced(sleeps, clock, used, hz, edgeTime)
        decreases |clock| - used
      {
        ReachedExactly(p, clock[used - 1], c);
        DistanceUnwrapped(p, clock[used - 1], c);
        var at := U64(edge + U64(U32(target - edgeCount) * period));
        assert at == edgeTime;
        var now := clock[used];
        used := used + 1;
        if now >= at {
          PacedBySpinning(sleeps, clock, rounds, used - 1, used, hz, at);
          break;
        }
        var waitUs := Us(hz, at - now);
        SleepIsCalledFor(hz, now, at);
        if waitUs > 200 {
          var usec := if waitUs > 100000 then 100000 else waitUs - 100;
          SleepEndsBefore(hz, now, at, usec);
          PacedBySleeping(sleeps, Sleep(now, usec), clock, rounds, used - 1, hz, at);
          sleeps := sleeps + [Sleep(now, usec)];
        } else {
          PacedBySpinning(sleeps, clock, rounds, used - 1, used + 1, hz, at);
        }
        v := VsyncNow(clock[used]);
        used := used + 1;
        rounds := rounds + 1;
      }
      ReachedExactly(p, clock[used - 1], c);
      CountReached(p, clock[used - 1], c);
    }

    /** The predictor a wait goes by: after a resync, if one is due. */
    ghost function Checked(due: bool, reply: Reply): Predictor
      requires period > 0
      reads this
    {
      if due then Resynced(Model(), reply) else Model()
    }

    /**
     Blocks until the counter reaches `target`. `first` is the first reading of the cycle counter,
     `uptime` what the uptime is then, `reply` what a resync sees, `clock` the readings of the wait loop.
     */
    method WaitVsync(target: nat, first: nat, uptime: int, reply: Reply, clock: seq<nat>)
      returns (waited: bool, resynced: bool, used: nat, sleeps: seq<Sleep>)
      requires Valid() && target < TWO_32 && edge <= first < TWO_62
      requires ready && !resyncOff && uptime >= lastSyncMs + 30000 ==>
                 PlausibleReply(Model(), reply) && first <= reply.called
      requires ready && Count(Model(), first) < Awaited(Model(), first, target) ==>
                 var p := Checked(!resyncOff && uptime >= lastSyncMs + 30000, reply);
                 var c := Awaited(Model(), first, target);
                 && Sorted(clock)
                 && (forall i | 0 <= i < |clock| :: p.edge <= clock[i] < TWO_62 && InReach(p, clock[i], c))
                 && EdgeTime(p, c) < TWO_64
                 && |clock| >= 2 && EdgeTime(p, c) <= clock[|clock| - 2]
      modifies this
      ensures Valid() && tried == old(tried) && ready == old(ready)
      ensures waited <==> ready && old(Count(Model(), first) < Awaited(Model(), first, target))
      ensures !waited ==> unchanged(this) && sleeps == []
      ensures resynced <==> waited && !old(resyncOff) && uptime >= old(lastSyncMs) + 30000
      ensures !resynced ==> Model() == old(Model()) && resyncOff == old(resyncOff) && lastSyncMs == old(lastSyncMs)
      ensures resynced ==>
                && Model() == (if reply.failed then old(Model()) else Corrected(old(Model()), reply.called, reply.returned))
                && resyncOff == reply.failed && lastSyncMs == reply.uptime
      ensures waited ==> Timing() == Later(old(Timing()), Wait(uptime, reply))
      ensures waited ==>
                var c := old(Awaited(Model(), first, target));
                && 1 <= used <= |clock| && Count(Model(), clock[used - 1]) >= c
                && Paced(sleeps, clock, used, hz, EdgeTime(Model(), c))
    {
      hide Corrected, Paced, InReach, EdgeTime, PlausibleReply;
      waited, resynced, used, sleeps := false, false, 0, [];
      if !ready {
        return;
      }
      var v := VsyncNow(first);
      AwaitedAhead(Model(), first, target);
      if I32(v - target) >= 0 {
        return;
      }
      ghost var c := Awaited(Model(), first, target);
      AwaitedHasCount(Model(), first, target);
      hide Count, Awaited, U32, I32;
      if !resyncOff && uptime - lastSyncMs >= RESYNC_MS {
        resynced := true;
        Resync(reply);
      }
      used, sleeps := SleepUntil(target, clock, c);
      waited := true;
    }
  }

  /** The signed 32-bit difference says whether the awaited edge lies ahead. */
  lemma AwaitedAhead(p: Predictor, now: int, count: nat)
    requires p.period > 0 && count < TWO_32
    ensures Count(p, now) < Awaited(p, now, count) <==> I32(U32(Count(p, now)) - count) < 0
  {
  }

  /** The predicted edge and the signed readings do not wrap. */
  lemma SignedReadings(p: Predictor, r: Reply, next: int)
    requires 0 < p.period < TWO_62 && r.returned < TWO_62
    requires 0 <= (next - p.count) * p.period < TWO_63 && 0 <= EdgeTime(p, next) < TWO_63
    ensures I64(p.period) == p.period
    ensures I64(r.returned) - I64(U64(p.edge + U64((next - p.count) * p.period))) == r.returned - EdgeTime(p, next)
  {
    InRange64((next - p.count) * p.period);
    InRange64(EdgeTime(p, next));
    InRange64(r.returned);
    InRange64(p.period);
  }

  /** The registers around a resync hold the unwrapped numbers of edges. */
  lemma StepsUnwrapped(next: int, count: int)
    requires 0 <= next - count < TWO_32
    ensures U32(U32(next - 1) + 1 - U32(count)) == next - count
  {
    U32Sum(next - 1, 1);
    U32Shift(next - count, count / 0x1_0000_0000 - (next - 1) / 0x1_0000_0000);
  }

  lemma CounterUnwrapped(next: int, k: int)
    ensures U32(U32(next - 1) + 1 + U32(k)) == U32(next + k)
  {
    U32Shift(next + k, -((next - 1) / 0x1_0000_0000) - k / 0x1_0000_0000);
  }

  /** The phase error measured from the predicted edge is the one measured from the edge found. */
  lemma CorrectedByParts(p: Predictor, called: int, returned: int, P: int, e: int, k: int, ep: int, n: int)
    requires P == p.period > 0
    requires e == returned - EdgeTime(p, Count(p, called) + 1)
    requires k == TruncDiv(e + (if e >= 0 then TruncDiv(P, 2) else TruncDiv(-P, 2)), P)
    requires ep == e - k * P && n == Count(p, called) + 1 - p.count + k
    ensures var ok := ep > TruncDiv(-P, 10) && ep < TruncDiv(P, 10);
            Corrected(p, called, returned) ==
            if !ok then p else Predictor(if n >= 30 then P + TruncDiv(ep, n) else P, returned, p.count + n)
  {
    HalfAndTenth(P);
    hide TruncDiv, Count;
    var next := Count(p, called) + 1;
    assert n == EdgesSince(p, called, returned);
    Regroup(next - p.count, -k, p.period);
    assert ep == PhaseError(p, called, returned);
  }

  lemma HalfAndTenth(P: int)
    requires P > 0
    ensures TruncDiv(P, 2) == P / 2 && TruncDiv(-P, 2) == -(P / 2)
    ensures TruncDiv(P, 10) == P / 10 && TruncDiv(-P, 10) == -(P / 10)
  {
  }

  /** The registers computed by a resync hold the model's numbers: nothing wraps, overflows or is lost. */
  lemma RegistersFollow(p: Predictor, r: Reply, before: int, steps: int, predicted: int,
                        P: int, e: int, k: int, ep: int, n: int)
    requires 0 < p.period < TWO_62 && 0 <= p.edge && PlausibleReply(p, r)
    requires before == U32(Count(p, r.called)) && steps == U32(before + 1 - U32(p.count))
    requires predicted == U64(p.edge + U64(steps * p.period))
    requires P == I64(p.period) && e == I64(r.returned) - I64(predicted)
    requires P != 0 && k == TruncDiv(e + (if e >= 0 then TruncDiv(P, 2) else TruncDiv(-P, 2)), P)
    requires ep == e - k * P && n == steps + k
    ensures var ok := ep > TruncDiv(-P, 10) && ep < TruncDiv(P, 10);
            var q := Corrected(p, r.called, r.returned);
            && q.period < TWO_62
            && if !ok then q == p
               else q == Predictor(if n >= 30 then U64(P + TruncDiv(ep, n)) else p.period, r.returned, p.count + n)
                    && U32(before + 1 + U32(k)) == U32(q.count)
  {
    hide Count, Corrected, TruncDiv, U32, U64, I64;
    var next := Count(p, r.called) + 1;
    StepsInRange(p, r);
    StepsUnwrapped(next, p.count);
    assert steps == next - p.count;
    SignedReadings(p, r, next);
    CorrectedByParts(p, r.called, r.returned, P, e, k, ep, n);
    CounterUnwrapped(next, k);
    CorrectedInRange(p, r);
    InRange64(Corrected(p, r.called, r.returned).period);
  }

  /** Nothing in the prediction of the next edge wraps. */
  lemma StepsInRange(p: Predictor, r: Reply)
    requires 0 < p.period < TWO_62 && PlausibleReply(p, r) && p.edge >= 0
    ensures var next := Count(p, r.called) + 1;
            && 0 < next - p.count < TWO_32
            && 0 <= (next - p.count) * p.period < TWO_63
            && 0 <= EdgeTime(p, next) < TWO_63
  {
    var a := (r.called - p.edge) / p.period;
    QuotientAtLeast(r.called - p.edge, p.period, a);
    QuotientAtLeast(r.called - p.edge, p.period, TWO_32 - 1);
    QuotientAtLeast(r.called - p.edge, p.period, 0);
    EdgeTimeStep(p, p.count + a);
    MulMonotone(0, a + 1, p.period);
  }

  lemma CorrectedInRange(p: Predictor, r: Reply)
    requires 0 < p.period < TWO_62 && PlausibleReply(p, r) && p.edge >= 0
    ensures Corrected(p, r.called, r.returned).period < TWO_62
  {
    var n, ep := EdgesSince(p, r.called, r.returned), PhaseError(p, r.called, r.returned);
    if n >= 30 {
      TruncDivRemainder(ep, n);
      PeriodFits(p.period, n, ep, TruncDiv(ep, n), r.returned - p.edge);
    }
  }

  lemma PeriodFits(P: int, n: int, ep: int, c: int, x: int)
    requires n >= 30 && x < TWO_62 && P < TWO_62
    requires x == n * P + ep && (ep >= 0 ==> c * n <= ep) && (ep <= 0 ==> c <= 0)
    ensures P + c < TWO_62
  {
    if ep > 0 {
      assert n * (P + c) == n * P + c * n <= x;
      if P + c >= TWO_62 { MulMonotone(1, n, P + c); }
    }
  }
}
