/**
 The vsync counter of the Raspberry Pi 4 glue over unbounded integers: what the 32- and 64-bit
 registers of `VsyncDisplay` stand for, and what the prediction is worth against real edges.
 */
module VsyncModel {
  import opened MachineArith

  /** A real edge was seen at cycle `edge`; it is edge number `count`; the next ones are predicted `period` apart. */
  datatype Predictor = Predictor(period: int, edge: int, count: int)

  predicate Running(p: Predictor, t: int) {
    p.period > 0 && p.edge <= t
  }

  /** The predicted edge number at cycle `t`. */
  function Count(p: Predictor, t: int): int
    requires p.period > 0
  {
    p.count + (t - p.edge) / p.period
  }

  /** When edge number `c` is predicted. */
  function EdgeTime(p: Predictor, c: int): int {
    p.edge + (c - p.count) * p.period
  }

  /** `e` in whole periods, to the nearest one. */
  function NearestPeriods(e: int, period: int): int
    requires period > 0
  {
    TruncDiv(e + (if e >= 0 then period / 2 else -(period / 2)), period)
  }

  /** The edges between the anchor and a SET_VSYNC that was called at `called` and returned at `returned`. */
  function EdgesSince(p: Predictor, called: int, returned: int): int
    requires p.period > 0
  {
    var next := Count(p, called) + 1;
    next + NearestPeriods(returned - EdgeTime(p, next), p.period) - p.count
  }

  /** How far from a predicted edge it returned. */
  function PhaseError(p: Predictor, called: int, returned: int): int
    requires p.period > 0
  {
    returned - EdgeTime(p, p.count + EdgesSince(p, called, returned))
  }

  predicate Accepted(p: Predictor, called: int, returned: int)
    requires p.period > 0
  {
    -(p.period / 10) < PhaseError(p, called, returned) < p.period / 10
  }

  /** One resync against a SET_VSYNC that succeeded. */
  function Corrected(p: Predictor, called: int, returned: int): (q: Predictor)
    requires p.period > 0
    ensures q.period > 0
    ensures 300 * Abs(q.period - p.period) < p.period
  {
    var n := EdgesSince(p, called, returned);
    if !Accepted(p, called, returned) then p
    else if n < 30 then Predictor(p.period, returned, p.count + n)
    else
      var ep := PhaseError(p, called, returned);
      CorrectionIsSmall(ep, n, p.period);
      Predictor(p.period + TruncDiv(ep, n), returned, p.count + n)
  }

  lemma CorrectionIsSmall(ep: int, n: int, period: int)
    requires n >= 30 && period > 0
    requires -(period / 10) < ep < period / 10
    ensures 300 * Abs(TruncDiv(ep, n)) < period
  {
    TruncDivRemainder(ep, n);
    var c := Abs(TruncDiv(ep, n));
    QuotientAtLeast(Abs(ep), n, c);
    MulMonotone(30, n, c);
  }

  // ----- rounding -----

  /** The rounding is to the nearest period, and never below the whole periods that have passed. */
  lemma NearestIsNearest(e: int, period: int)
    requires period > 0
    ensures 2 * Abs(e - NearestPeriods(e, period) * period) <= period
    ensures NearestPeriods(e, period) >= e / period
  {
    var half := period / 2;
    var a := e + if e >= 0 then half else -half;
    var k := NearestPeriods(e, period);
    assert k == TruncDiv(a, period);
    hide NearestPeriods, TruncDiv;
    TruncDivRemainder(a, period);
    NearestBounds(e, half, period, k * period);
    QuotientBounds(e, period);
    MulSucc(k, period);
    var f := e / period;
    if k < f { MulMonotone(k + 1, f, period); }
  }

  lemma NearestBounds(e: int, half: int, period: int, x: int)
    requires 2 * half <= period <= 2 * half + 1
    requires e >= 0 ==> x <= e + half && e + half - x < period
    requires e < 0 ==> (x >= e - half || e - half > 0) && x - (e - half) < period
    requires half >= 0
    ensures 2 * Abs(e - x) <= period
  {
  }

  /** A time less than half a period away from `m` periods rounds to `m`. */
  lemma NearestIsUnique(e: int, period: int, m: int, d: int)
    requires period > 0
    requires e == m * period + d && 2 * Abs(d) < period
    ensures NearestPeriods(e, period) == m
  {
    hide NearestPeriods;
    NearestIsNearest(e, period);
    var k := NearestPeriods(e, period);
    Regroup(m, k, period);
    var difference := (m - k) * period;
    assert Abs(difference) < period;
    if m > k { MulMonotone(1, m - k, period); }
    if m < k { MulMonotone(m - k, -1, period); }
  }

  lemma CountReached(p: Predictor, t: int, c: int)
    requires p.period > 0
    ensures Count(p, t) >= c <==> t >= EdgeTime(p, c)
  {
    QuotientAtLeast(t - p.edge, p.period, c - p.count);
  }

  /** The counter seen from the predicted time of edge `c`. */
  lemma CountFrom(p: Predictor, c: int, e: int)
    requires p.period > 0
    ensures Count(p, EdgeTime(p, c) + e) == c + e / p.period
  {
    var P, m, f := p.period, c - p.count, e / p.period;
    QuotientAtLeast(e, P, f);
    QuotientAtLeast(e, P, f + 1);
    assert (m + f) * P == m * P + f * P;
    assert (m + f + 1) * P == m * P + (f + 1) * P;
    QuotientIs(m * P + e, P, m + f);
  }

  // ----- the counter never goes back -----

  /**
   One resync: the counter does not step back (`k >= -1` in the terms of the source), the anchor
   moves forward, and the period moves by less than a 300th of itself, so it stays positive.
   */
  lemma ResyncNeverBack(p: Predictor, called: int, returned: int)
    requires Running(p, called) && called <= returned
    ensures EdgesSince(p, called, returned) >= Count(p, called) - p.count
    ensures var q := Corrected(p, called, returned);
            && Running(q, returned) && p.edge <= q.edge
            && 300 * Abs(q.period - p.period) < p.period
            && Count(q, returned) >= Count(p, returned)
  {
    var next := Count(p, called) + 1;
    var e := returned - EdgeTime(p, next);
    CountReached(p, called, next - 1);
    assert e >= -p.period by { EdgeTimeStep(p, next - 1); }
    QuotientAtLeast(e, p.period, -1);
    NearestIsNearest(e, p.period);
    CountFrom(p, next, e);
    CountFrom(Corrected(p, called, returned), Corrected(p, called, returned).count, 0);
    QuotientAtLeast(returned - p.edge, p.period, 0);
  }

  lemma EdgeTimeStep(p: Predictor, c: int)
    ensures EdgeTime(p, c + 1) == EdgeTime(p, c) + p.period
  {
  }

  /** What happens to the counter: a reading, a SET_VSYNC that answers, or one that fails. */
  datatype Event =
    | Read(at: int)
    | Resync(called: int, returned: int)
    | FailedResync(called: int, returned: int)

  /** A counter value and when it was read. */
  datatype Reading = Reading(at: int, value: int)

  predicate Ordered(ev: Event, from: int) {
    match ev
    case Read(at) => from <= at
    case Resync(called, returned) => from <= called <= returned
    case FailedResync(called, returned) => from <= called <= returned
  }

  function End(ev: Event): int {
    if ev.Read? then ev.at else ev.returned
  }

  /** The clock never runs backwards through the run. */
  predicate Chronological(evs: seq<Event>, from: int) {
    evs == [] || (Ordered(evs[0], from) && Chronological(evs[1..], End(evs[0])))
  }

  function After(p: Predictor, ev: Event): Predictor
    requires p.period > 0
  {
    if ev.Resync? then Corrected(p, ev.called, ev.returned) else p
  }

  /** The counter values seen around one event. */
  function Seen(p: Predictor, ev: Event): seq<Reading>
    requires p.period > 0
  {
    match ev
    case Read(at) => [Reading(at, Count(p, at))]
    case Resync(called, returned) =>
      var q := Corrected(p, called, returned);
      [Reading(called, Count(p, called)), Reading(returned, Count(q, returned))]
    case FailedResync(called, returned) =>
      [Reading(called, Count(p, called)), Reading(returned, Count(p, returned))]
  }

  /** The counter values seen over a run. */
  function Readings(p: Predictor, evs: seq<Event>): seq<Reading>
    requires p.period > 0
    decreases |evs|
  {
    if evs == [] then []
    else Seen(p, evs[0]) + Readings(After(p, evs[0]), evs[1..])
  }

  lemma CountMonotone(p: Predictor, t: int, u: int)
    requires p.period > 0 && t <= u
    ensures Count(p, t) <= Count(p, u)
  {
    CountReached(p, t, Count(p, t));
    CountReached(p, u, Count(p, t));
  }

  lemma EventNeverBack(p: Predictor, ev: Event, from: int)
    requires Running(p, from) && Ordered(ev, from)
    ensures Running(After(p, ev), End(ev))
    ensures forall i | 0 <= i < |Seen(p, ev)| :: Count(p, from) <= Seen(p, ev)[i].value <= Count(After(p, ev), End(ev))
    ensures forall i, j | 0 <= i < j < |Seen(p, ev)| :: Seen(p, ev)[i].value <= Seen(p, ev)[j].value
  {
    if ev.Read? {
      CountMonotone(p, from, ev.at);
    } else {
      CountMonotone(p, from, ev.called);
      CountMonotone(p, ev.called, ev.returned);
      if ev.Resync? {
        ResyncNeverBack(p, ev.called, ev.returned);
      }
    }
  }

  /** Over every run, whatever SET_VSYNC answers, the counter never runs backwards. */
  lemma {:induction false} CounterNeverBack(p: Predictor, evs: seq<Event>, from: int)
    requires Running(p, from) && Chronological(evs, from)
    ensures forall i | 0 <= i < |Readings(p, evs)| :: Count(p, from) <= Readings(p, evs)[i].value
    ensures forall i, j | 0 <= i < j < |Readings(p, evs)| :: Readings(p, evs)[i].value <= Readings(p, evs)[j].value
    decreases |evs|
  {
    if evs != [] {
      EventNeverBack(p, evs[0], from);
      CounterNeverBack(After(p, evs[0]), evs[1..], End(evs[0]));
      CountMonotone(p, from, End(evs[0]));
      assert Count(p, from) <= Count(After(p, evs[0]), End(evs[0])) by {
        assert |Seen(p, evs[0])| > 0;
        var _ := Seen(p, evs[0])[0];
      }
    }
  }

  // ----- agreement with the true edges -----

  /** The number of the last true edge at `t`, when true edge 0 is at `base` and they come every `T` cycles. */
  function TrueCount(base: int, T: int, t: int): int
    requires T > 0
  {
    (t - base) / T
  }

  /** The anchor is the true edge it is numbered as. */
  predicate Locked(p: Predictor, base: int, T: int) {
    p.edge == base + p.count * T
  }

  lemma TrueCountFromAnchor(p: Predictor, base: int, T: int, t: int)
    requires T > 0 && Locked(p, base, T)
    ensures TrueCount(base, T, t) == p.count + (t - p.edge) / T
  {
    var n := (t - p.edge) / T;
    QuotientAtLeast(t - p.edge, T, n);
    QuotientAtLeast(t - p.edge, T, n + 1);
    assert (p.count + n) * T == p.count * T + n * T;
    assert (p.count + n + 1) * T == p.count * T + (n + 1) * T;
    QuotientIs(t - base, T, p.count + n);
  }

  /** A clock of period `T` is two ticks behind one of period `P` only after the drift has reached `T`. */
  lemma SlowClockBehind(x: int, P: int, T: int)
    requires x >= 0 && P > 0 && T >= P
    ensures x / P >= x / T
    ensures x / P >= x / T + 2 ==> (x / P) * (T - P) > T
  {
    var p, n := x / P, x / T;
    QuotientAtLeast(x, P, p);
    QuotientAtLeast(x, T, n + 1);
    QuotientAtLeast(x, T, n);
    QuotientAtLeast(x, P, n);
    QuotientAtLeast(x, T, 0);
    MulMonotone2(n, P, T);
    if p >= n + 2 {
      MulMonotone(n + 1, p - 1, T);
      assert (p - 1) * T == p * T - T;
      assert p * (T - P) == p * T - p * P;
    }
  }

  /** And once the drift has reached `T`, there was a moment when it was two ticks behind. */
  lemma SlowClockWitness(x: int, P: int, T: int) returns (y: int)
    requires x >= 0 && P > 0 && T >= P
    requires (x / P) * (T - P) > T
    ensures 0 <= y <= x && y / P >= y / T + 2
  {
    var p := x / P;
    y := p * P;
    QuotientAtLeast(x, P, p);
    QuotientAtLeast(x, P, 0);
    QuotientAtLeast(y, P, p);
    assert p * (T - P) == p * T - p * P;
    assert (p - 1) * T == p * T - T;
    QuotientAtLeast(y, T, p - 1);
    assert y >= 0;
  }

  lemma MulMonotone2(n: int, x: int, y: int)
    requires n >= 0 && x <= y
    ensures n * x <= n * y
  {
  }

  ghost predicate WithinOneUntil(p: Predictor, base: int, T: int, until: int)
    requires p.period > 0 && T > 0
  {
    forall t | p.edge <= t <= until :: Abs(Count(p, t) - TrueCount(base, T, t)) <= 1
  }

  /** Edges since the anchor, by whichever of the two counters is ahead. */
  function EdgesAhead(p: Predictor, base: int, T: int, t: int): int
    requires p.period > 0 && T > 0
  {
    Max(Count(p, t), TrueCount(base, T, t)) - p.count
  }

  /**
   How long a prediction can be trusted, exactly: it has stayed within one edge of the true counter
   if and only if the drift over the edges so far is no more than the longer of the two periods.
   */
  lemma WithinOneExactly(p: Predictor, base: int, T: int, until: int)
    requires Running(p, until) && T > 0 && Locked(p, base, T)
    ensures WithinOneUntil(p, base, T, until)
            <==> EdgesAhead(p, base, T, until) * Abs(T - p.period) <= Max(T, p.period)
  {
    var P := p.period;
    var slow, fast := Max(T, P), if T >= P then P else T;
    var x := until - p.edge;
    hide Count, TrueCount;
    ApartFromAnchor(p, base, T, until);
    if (x / fast) * (slow - fast) > slow {
      var y := SlowClockWitness(x, fast, slow);
      ApartFromAnchor(p, base, T, p.edge + y);
      assert Abs(Count(p, p.edge + y) - TrueCount(base, T, p.edge + y)) >= 2;
    } else {
      forall t | p.edge <= t <= until
        ensures Abs(Count(p, t) - TrueCount(base, T, t)) <= 1
      {
        ApartFromAnchor(p, base, T, t);
        OneApart(t - p.edge, x, fast, slow);
      }
    }
  }

  /** How far the two counters are apart, and how many edges the faster one has counted. */
  lemma ApartFromAnchor(p: Predictor, base: int, T: int, t: int)
    requires Running(p, t) && T > 0 && Locked(p, base, T)
    ensures var slow, fast, x := Max(T, p.period), if T >= p.period then p.period else T, t - p.edge;
            && slow >= fast > 0 && slow - fast == Abs(T - p.period)
            && EdgesAhead(p, base, T, t) == x / fast
            && Abs(Count(p, t) - TrueCount(base, T, t)) == x / fast - x / slow >= 0
  {
    var slow, fast := Max(T, p.period), if T >= p.period then p.period else T;
    TrueCountFromAnchor(p, base, T, t);
    SlowClockBehind(t - p.edge, fast, slow);
  }

  lemma OneApart(y: int, x: int, fast: int, slow: int)
    requires 0 <= y <= x && slow >= fast > 0 && (x / fast) * (slow - fast) <= slow
    ensures y / fast - y / slow <= 1
  {
    SlowClockBehind(y, fast, slow);
    QuotientAtLeast(y, fast, y / fast);
    QuotientAtLeast(x, fast, y / fast);
    MulMonotone(y / fast, x / fast, slow - fast);
  }

  /** In range of a resync: `M` true edges after the anchor the drift is below the window of a tenth of a period. */
  predicate InWindow(p: Predictor, T: int, M: int, jitter: int) {
    M * Abs(T - p.period) + jitter < p.period / 10
  }

  /**
   A SET_VSYNC that returns within the window is accepted and counts the true number of edges, even
   when the anchor and the return are both up to `jitter` away from their true edges.
   */
  lemma WindowFindsEdges(p: Predictor, T: int, M: int, jitter: int, called: int, returned: int)
    requires p.period > 0 && T > 0 && M >= 0
    requires Abs(returned - (p.edge + M * T)) <= jitter
    requires InWindow(p, T, M, jitter)
    ensures Accepted(p, called, returned)
    ensures EdgesSince(p, called, returned) == M
    ensures PhaseError(p, called, returned) == returned - p.edge - M * p.period
  {
    var next := Count(p, called) + 1;
    var d := returned - p.edge - M * p.period;
    DriftBound(p.period, T, M, returned - p.edge);
    Regroup(M, next - p.count, p.period);
    NearestIsUnique(returned - EdgeTime(p, next), p.period, M + p.count - next, d);
  }

  lemma DriftBound(P: int, T: int, M: int, x: int)
    requires M >= 0
    ensures Abs(x - M * P) <= M * Abs(T - P) + Abs(x - M * T)
  {
    assert M * (T - P) == M * T - M * P;
    assert M * (P - T) == M * P - M * T;
  }

  lemma Regroup(a: int, b: int, P: int)
    ensures (a - b) * P == a * P - b * P
  {
  }

  /** One reading in the window, of 30 edges or more, recovers the true period exactly. */
  lemma ExactRecovery(p: Predictor, base: int, T: int, M: int, called: int, returned: int)
    requires p.period > 0 && T > 0 && M >= 0 && Locked(p, base, T)
    requires returned == p.edge + M * T
    requires InWindow(p, T, M, 0)
    ensures Corrected(p, called, returned) == Predictor(if M >= 30 then T else p.period, returned, p.count + M)
    ensures Locked(Corrected(p, called, returned), base, T)
  {
    WindowFindsEdges(p, T, M, 0, called, returned);
    Regroup(p.count, -M, T);
    MulNegate(M, T);
    if M >= 30 {
      Regroup(T, p.period, M);
      TruncDivExact(T - p.period, M);
    }
  }

  /** The window is exactly where a resync counts the true edges: outside it, it rejects or miscounts (`AcceptedAs`). */
  lemma WindowExactly(p: Predictor, T: int, M: int, called: int, returned: int)
    requires p.period > 0 && T > 0 && M >= 0 && returned == p.edge + M * T
    ensures Accepted(p, called, returned) && EdgesSince(p, called, returned) == M <==> InWindow(p, T, M, 0)
  {
    if InWindow(p, T, M, 0) {
      WindowFindsEdges(p, T, M, 0, called, returned);
    } else if EdgesSince(p, called, returned) == M {
      assert PhaseError(p, called, returned) == M * T - M * p.period;
      DriftIs(p.period, T, M);
    }
  }

  /** For how many edges a return at true edge `M` is taken: any number that comes out within the window. */
  lemma AcceptedAs(p: Predictor, T: int, M: int, n: int, called: int, returned: int)
    requires p.period > 0 && T > 0 && M >= 0 && returned == p.edge + M * T
    ensures Accepted(p, called, returned) && EdgesSince(p, called, returned) == n
            <==> Abs(M * T - n * p.period) < p.period / 10
  {
    var P := p.period;
    if Abs(M * T - n * P) < P / 10 {
      var next := Count(p, called) + 1;
      Regroup(n, next - p.count, P);
      NearestIsUnique(returned - EdgeTime(p, next), P, n + p.count - next, M * T - n * P);
    }
  }

  /** So a drift of about a whole period is not noticed: 1000 true edges are taken for 1001, and the numbering stays off. */
  lemma SilentMiscount(called: int)
    ensures var p, T, returned := Predictor(1000, 0, 0), 1001, 1001000;
            && Locked(p, 0, T) && returned == 1000 * T
            && Accepted(p, called, returned) && EdgesSince(p, called, returned) == 1001
            && !Locked(Corrected(p, called, returned), 0, T)
  {
    AcceptedAs(Predictor(1000, 0, 0), 1001, 1000, 1001, called, 1001000);
  }

  lemma DriftIs(P: int, T: int, M: int)
    requires M >= 0
    ensures Abs(M * T - M * P) == M * Abs(T - P)
  {
    assert M * (T - P) == M * T - M * P;
    assert M * (P - T) == M * P - M * T;
  }

  /** With jitter at both ends the new period is within 2 * jitter / M + 1 cycles of the true one. */
  lemma JitteredRecovery(p: Predictor, T: int, M: int, jitter: int, anchor: int, called: int, returned: int)
    requires p.period > 0 && T > 0 && M >= 30 && jitter >= 0
    requires Abs(p.edge - anchor) <= jitter && Abs(returned - (anchor + M * T)) <= jitter
    requires InWindow(p, T, M, 2 * jitter)
    ensures var q := Corrected(p, called, returned);
            q.count == p.count + M && q.edge == returned && M * Abs(q.period - T) < 2 * jitter + M
  {
    WindowFindsEdges(p, T, M, 2 * jitter, called, returned);
    RoundedCorrection(p.period, T, M, PhaseError(p, called, returned));
  }

  lemma RoundedCorrection(P: int, T: int, M: int, ep: int)
    requires M > 0
    ensures M * Abs(P + TruncDiv(ep, M) - T) < Abs(ep + M * P - M * T) + M
  {
    var c := TruncDiv(ep, M);
    TruncDivRemainder(ep, M);
    var d := P + c - T;
    assert M * d == M * P + c * M - M * T;
    assert M * -d == -(M * d);
  }

  // ----- runs with jitter -----

  /** The anchor is within `J` of the true edge it is numbered as. */
  predicate Near(p: Predictor, base: int, T: int, J: int) {
    Abs(p.edge - (base + p.count * T)) <= J
  }

  /** SET_VSYNC returned within `J` of a true edge that is in the window. */
  ghost predicate AtWindow(p: Predictor, base: int, T: int, J: int, returned: int) {
    exists M :: AtEdge(p, base, T, J, returned, M)
  }

  predicate AtEdge(p: Predictor, base: int, T: int, J: int, returned: int, M: int) {
    M >= 0 && InWindow(p, T, M, 2 * J) && Abs(returned - (base + (p.count + M) * T)) <= J
  }

  /** The event moves the anchor; a rejected resync is like a failed one. */
  predicate Anchors(p: Predictor, ev: Event)
    requires p.period > 0
  {
    ev.Resync? && Accepted(p, ev.called, ev.returned)
  }

  /** Every resync of the run that is accepted lands in the window. */
  ghost predicate InWindows(p: Predictor, base: int, T: int, J: int, evs: seq<Event>)
    requires p.period > 0
    decreases |evs|
  {
    evs == [] ||
    ((Anchors(p, evs[0]) ==> AtWindow(p, base, T, J, evs[0].returned)) && InWindows(After(p, evs[0]), base, T, J, evs[1..]))
  }

  /** The predictor that the run leaves, and when its last event is over. */
  function Final(p: Predictor, evs: seq<Event>): (q: Predictor)
    requires p.period > 0
    ensures q.period > 0
    decreases |evs|
  {
    if evs == [] then p else Final(After(p, evs[0]), evs[1..])
  }

  function EndOf(evs: seq<Event>, from: int): int {
    if evs == [] then from else End(evs[|evs| - 1])
  }

  /** Drift and jitter together are no more than the longer period, and the jitter no more than the predicted one. */
  predicate NoDrift(p: Predictor, base: int, T: int, J: int, t: int)
    requires p.period > 0 && T > 0
  {
    EdgesAhead(p, base, T, t) * Abs(T - p.period) + J <= Max(T, p.period) && J <= p.period
  }

  ghost predicate Agree(rs: seq<Reading>, base: int, T: int, slack: nat)
    requires T > 0
  {
    forall i | 0 <= i < |rs| :: Abs(rs[i].value - TrueCount(base, T, rs[i].at)) <= slack
  }

  /** How far readings may be off: not at all without jitter and with the true period. */
  function Slack(p: Predictor, T: int, J: int): nat {
    if J == 0 && p.period == T then 0 else 1
  }

  lemma ReadingAgrees(p: Predictor, base: int, T: int, J: int, t: int)
    requires T > 0 && 0 <= J <= T && Running(p, t) && Near(p, base, T, J) && NoDrift(p, base, T, J, t)
    ensures Abs(Count(p, t) - TrueCount(base, T, t)) <= Slack(p, T, J)
  {
    if J == 0 && p.period == T {
      TrueCountFromAnchor(p, base, T, t);
    } else {
      CounterNotAhead(p, base, T, J, t);
      CounterNotBehind(p, base, T, J, t);
    }
  }

  lemma CounterNotAhead(p: Predictor, base: int, T: int, J: int, t: int)
    requires T > 0 && 0 <= J <= T && Running(p, t) && Near(p, base, T, J) && NoDrift(p, base, T, J, t)
    ensures Count(p, t) <= TrueCount(base, T, t) + 1
  {
    var c, k, P := Count(p, t), TrueCount(base, T, t), p.period;
    var n := c - p.count;
    CountReached(p, t, c);
    CountReached(p, t, p.count);
    if c >= k + 2 {
      QuotientAtLeast(t - base, T, c - 1);
      Regroup(c, 1, T);
      Regroup(c, p.count, T);
      SignedDrift(n, T, P);
    }
  }

  lemma CounterNotBehind(p: Predictor, base: int, T: int, J: int, t: int)
    requires T > 0 && 0 <= J <= T && Running(p, t) && Near(p, base, T, J) && NoDrift(p, base, T, J, t)
    ensures TrueCount(base, T, t) <= Count(p, t) + 1
  {
    var c, k, P := Count(p, t), TrueCount(base, T, t), p.period;
    var m := k - p.count;
    CountReached(p, t, p.count);
    if k >= c + 2 {
      CountReached(p, t, k - 1);
      QuotientAtLeast(t - base, T, k);
      Regroup(m, 1, P);
      Regroup(k, p.count, T);
      SignedDrift(m, P, T);
    }
  }

  /** The drift over `n` edges, with its sign. */
  lemma SignedDrift(n: int, x: int, y: int)
    requires n >= 0
    ensures n * x - n * y <= n * Abs(x - y) == n * Abs(y - x)
    ensures x <= y ==> n * x - n * y <= 0
  {
    assert n * (x - y) == n * x - n * y;
    MulMonotone2(n, x - y, Abs(x - y));
    if x <= y { MulMonotone2(n, x, y); }
  }

  /** At its anchor the counter is within one edge, and exact without jitter. */
  lemma AnchorAgrees(p: Predictor, base: int, T: int, J: int)
    requires T > 0 && p.period > 0 && 0 <= J <= T && Near(p, base, T, J)
    ensures Count(p, p.edge) == p.count
    ensures Abs(p.count - TrueCount(base, T, p.edge)) <= if J == 0 then 0 else 1
  {
    var c := p.count;
    CountReached(p, p.edge, c);
    CountReached(p, p.edge, c + 1);
    Regroup(c, 1, T);
    MulSucc(c, T);
    MulSucc(c + 1, T);
    QuotientAtLeast(p.edge - base, T, c - 1);
    QuotientAtLeast(p.edge - base, T, c);
    QuotientAtLeast(p.edge - base, T, c + 1);
    QuotientAtLeast(p.edge - base, T, c + 2);
  }

  /** A resync in the window shows that the drift was small all the way from the anchor to it. */
  lemma WindowMeansNoDrift(p: Predictor, base: int, T: int, J: int, returned: int, M: int, t: int)
    requires p.period > 0 && 0 <= 2 * J < T && Near(p, base, T, J) && AtEdge(p, base, T, J, returned, M) && t <= returned
    ensures NoDrift(p, base, T, J, t)
  {
    WindowEdges(p, base, T, J, M, returned);
    DriftGrows(p, base, T, J, t, returned);
  }

  /** Neither counter is past edge `M` at a return in the window of edge `M`. */
  lemma WindowEdges(p: Predictor, base: int, T: int, J: int, M: int, returned: int)
    requires T > 0 && p.period > 0 && 0 <= J && 2 * J < T && Near(p, base, T, J)
    requires M >= 0 && InWindow(p, T, M, 2 * J) && Abs(returned - (base + (p.count + M) * T)) <= J
    ensures EdgesAhead(p, base, T, returned) <= M && NoDrift(p, base, T, J, returned)
  {
    WindowCount(p, base, T, J, M, returned);
    WindowTrueCount(p, base, T, J, M, returned);
    hide Count, TrueCount;
    var ahead, drift := EdgesAhead(p, base, T, returned), Abs(T - p.period);
    MulMonotone(ahead, M, drift);
    assert M * drift + 2 * J < p.period / 10;
  }

  lemma WindowCount(p: Predictor, base: int, T: int, J: int, M: int, returned: int)
    requires T > 0 && p.period > 0 && 0 <= J && Near(p, base, T, J)
    requires M >= 0 && InWindow(p, T, M, 2 * J) && Abs(returned - (base + (p.count + M) * T)) <= J
    ensures Count(p, returned) <= p.count + M
  {
    var P := p.period;
    Regroup(p.count, -M, T);
    MulNegate(M, T);
    SignedDrift(M, T, P);
    MulSucc(M, P);
    CountReached(p, returned, p.count + M + 1);
    hide Count;
    assert EdgeTime(p, p.count + M + 1) == p.edge + (M + 1) * P;
  }

  lemma WindowTrueCount(p: Predictor, base: int, T: int, J: int, M: int, returned: int)
    requires T > 0 && 0 <= J && 2 * J < T && Abs(returned - (base + (p.count + M) * T)) <= J
    ensures TrueCount(base, T, returned) <= p.count + M
  {
    MulSucc(p.count + M, T);
    QuotientAtLeast(returned - base, T, p.count + M + 1);
  }

  lemma DriftGrows(p: Predictor, base: int, T: int, J: int, t: int, u: int)
    requires T > 0 && p.period > 0 && t <= u && NoDrift(p, base, T, J, u)
    ensures NoDrift(p, base, T, J, t)
  {
    CountMonotone(p, t, u);
    QuotientAtLeast(t - base, T, TrueCount(base, T, t));
    QuotientAtLeast(u - base, T, TrueCount(base, T, t));
    MulMonotone(EdgesAhead(p, base, T, t), EdgesAhead(p, base, T, u), Abs(T - p.period));
  }

  /** A resync in the window leaves the anchor near the true edge it is numbered as. */
  lemma WindowStaysNear(p: Predictor, base: int, T: int, J: int, called: int, returned: int)
    requires T > 0 && p.period > 0 && J >= 0 && Near(p, base, T, J) && AtWindow(p, base, T, J, returned)
    ensures Accepted(p, called, returned) && Near(Corrected(p, called, returned), base, T, J)
    ensures Corrected(p, called, returned).edge == returned
    ensures J == 0 && p.period == T ==> Corrected(p, called, returned).period == T
  {
    var M :| AtEdge(p, base, T, J, returned, M);
    Regroup(p.count, -M, T);
    MulNegate(M, T);
    WindowFindsEdges(p, T, M, 2 * J, called, returned);
    if J == 0 && p.period == T { ExactRecovery(p, base, T, M, called, returned); }
  }

  lemma RejectedKeeps(p: Predictor, ev: Event)
    requires p.period > 0 && !Anchors(p, ev)
    ensures After(p, ev) == p
  {
  }

  lemma ResyncAgrees(p: Predictor, base: int, T: int, J: int, called: int, returned: int, M: int)
    requires Running(p, called) && called <= returned && 0 <= 2 * J < T && Near(p, base, T, J)
    requires AtEdge(p, base, T, J, returned, M)
    ensures Agree(Seen(p, Event.Resync(called, returned)), base, T, Slack(p, T, J))
    ensures var q := Corrected(p, called, returned);
            Near(q, base, T, J) && Running(q, returned) && (J == 0 && p.period == T ==> q.period == T)
  {
    WindowMeansNoDrift(p, base, T, J, returned, M, called);
    ReadingAgrees(p, base, T, J, called);
    WindowStaysNear(p, base, T, J, called, returned);
    AnchorAgrees(Corrected(p, called, returned), base, T, J);
  }

  lemma OtherEventAgrees(p: Predictor, base: int, T: int, J: int, ev: Event, from: int)
    requires Running(p, from) && Ordered(ev, from) && !Anchors(p, ev)
    requires 0 <= 2 * J < T && Near(p, base, T, J) && NoDrift(p, base, T, J, End(ev))
    ensures After(p, ev) == p && Agree(Seen(p, ev), base, T, Slack(p, T, J))
  {
    ReadingAgrees(p, base, T, J, End(ev));
    if !ev.Read? {
      DriftGrows(p, base, T, J, ev.called, ev.returned);
      ReadingAgrees(p, base, T, J, ev.called);
    }
  }

  /** The windows bound the drift before them, and the end of the run what comes after the last one. */
  lemma {:induction false} NoDriftFrom(p: Predictor, base: int, T: int, J: int, evs: seq<Event>, from: int)
    requires T > 0 && J >= 0 && 2 * J < T && Running(p, from) && Near(p, base, T, J) && Chronological(evs, from)
    requires InWindows(p, base, T, J, evs) && NoDrift(Final(p, evs), base, T, J, EndOf(evs, from))
    ensures NoDrift(p, base, T, J, from)
    decreases |evs|
  {
    if evs != [] {
      var ev := evs[0];
      if Anchors(p, ev) {
        var M :| AtEdge(p, base, T, J, ev.returned, M);
        WindowMeansNoDrift(p, base, T, J, ev.returned, M, from);
      } else {
        NoDriftFrom(p, base, T, J, evs[1..], End(ev));
        DriftGrows(p, base, T, J, from, End(ev));
      }
    }
  }

  /**
   Safety of a whole run, with every return of SET_VSYNC up to `J` off: if the resyncs that are accepted
   fall in the window, the counter is never more than one edge away from the truth up to the last of
   them, and after it for as long as drift and jitter are no more than the longer period; a run that
   starts with the true period, and without jitter, is never away at all.
   */
  lemma {:induction false} RunAgrees(p: Predictor, base: int, T: int, J: int, evs: seq<Event>, from: int)
    requires T > 0 && J >= 0 && 2 * J < T && Running(p, from) && Near(p, base, T, J) && Chronological(evs, from)
    requires InWindows(p, base, T, J, evs) && NoDrift(Final(p, evs), base, T, J, EndOf(evs, from))
    ensures Agree(Readings(p, evs), base, T, Slack(p, T, J))
    decreases |evs|
  {
    hide AtEdge, Near, NoDrift, Corrected, Count, TrueCount, Accepted;
    if evs != [] {
      var ev := evs[0];
      if Anchors(p, ev) {
        var M :| AtEdge(p, base, T, J, ev.returned, M);
        ResyncAgrees(p, base, T, J, ev.called, ev.returned, M);
      } else {
        RejectedKeeps(p, ev);
        NoDriftFrom(p, base, T, J, evs[1..], End(ev));
        OtherEventAgrees(p, base, T, J, ev, from);
      }
      RunAgrees(After(p, evs[0]), base, T, J, evs[1..], End(evs[0]));
    }
  }

  /** At every cycle of the run, read or not, the predictor in force is within one edge of the truth. */
  ghost predicate WithinOneThroughout(p: Predictor, base: int, T: int, evs: seq<Event>, until: int)
    requires p.period > 0 && T > 0
    decreases |evs|
  {
    if evs == [] then WithinOneUntil(p, base, T, until)
    else
      && (Anchors(p, evs[0]) ==> WithinOneUntil(p, base, T, evs[0].returned))
      && WithinOneThroughout(After(p, evs[0]), base, T, evs[1..], until)
  }

  /** Without jitter, and with the resyncs in the window, only what comes after the last one decides if the run is within one. */
  lemma {:induction false} RunWithinOneExactly(p: Predictor, base: int, T: int, evs: seq<Event>, from: int, until: int)
    requires T > 0 && Running(p, from) && Locked(p, base, T) && Chronological(evs, from)
    requires InWindows(p, base, T, 0, evs) && EndOf(evs, from) <= until
    ensures WithinOneThroughout(p, base, T, evs, until) <==> NoDrift(Final(p, evs), base, T, 0, until)
    decreases |evs|
  {
    if evs == [] {
      WithinOneExactly(p, base, T, until);
    } else {
      var ev := evs[0];
      if Anchors(p, ev) {
        var M :| AtEdge(p, base, T, 0, ev.returned, M);
        WindowMeansNoDrift(p, base, T, 0, ev.returned, M, ev.returned);
        WithinOneExactly(p, base, T, ev.returned);
        WindowStaysNear(p, base, T, 0, ev.called, ev.returned);
      }
      RunWithinOneExactly(After(p, ev), base, T, evs[1..], End(ev), until);
    }
  }

  /**
   The drift over the true edges alone does not tell: after 3 of them, 3 cycles each, less than one
   period has built up, but the counter is two ahead.
   */
  lemma TrueEdgesAreNotEnough()
    ensures var p, T, t := Predictor(10, 0, 0), 13, 50;
            && Locked(p, 0, T) && TrueCount(0, T, t) * Abs(T - p.period) < p.period
            && Count(p, t) == TrueCount(0, T, t) + 2
  {
    QuotientIs(50, 10, 5);
    QuotientIs(50, 13, 3);
  }

  /** A resync of a predictor with the true period, at a true edge, is in the window and keeps the period. */
  lemma TrueResync(p: Predictor, base: int, T: int, called: int, returned: int)
    requires T >= 10 && p.period == T && p.edge <= returned && Locked(p, base, T)
    requires (returned - base) % T == 0
    ensures AtWindow(p, base, T, 0, returned)
    ensures Corrected(p, called, returned).period == T && Locked(Corrected(p, called, returned), base, T)
    ensures Corrected(p, called, returned).edge == returned
  {
    var M := (returned - base) / T - p.count;
    QuotientBounds(returned - base, T);
    Regroup((returned - base) / T, p.count, T);
    QuotientIs(returned - p.edge, T, M) by { MulSucc(M, T); }
    QuotientAtLeast(returned - p.edge, T, 0);
    assert M * Abs(T - p.period) == 0 by { assert M * 0 == 0; }
    assert AtEdge(p, base, T, 0, returned, M);
    ExactRecovery(p, base, T, M, called, returned);
  }

  /** With the true period no drift builds up, so only the resyncs' own edges are left to ask for. */
  lemma {:induction false} TruePeriodStaysInWindows(p: Predictor, base: int, T: int, evs: seq<Event>, from: int)
    requires T >= 10 && p.period == T && p.edge <= from && Locked(p, base, T) && Chronological(evs, from)
    requires forall i | 0 <= i < |evs| && evs[i].Resync? :: (evs[i].returned - base) % T == 0
    ensures InWindows(p, base, T, 0, evs) && Final(p, evs).period == T
    decreases |evs|
  {
    if evs != [] {
      var ev := evs[0];
      if ev.Resync? {
        TrueResync(p, base, T, ev.called, ev.returned);
      }
      assert forall i | 0 <= i < |evs[1..]| :: evs[1..][i] == evs[i + 1];
      TruePeriodStaysInWindows(After(p, ev), base, T, evs[1..], End(ev));
    }
  }

  lemma NoDriftAtAll(p: Predictor, base: int, T: int, t: int)
    requires T > 0 && p.period == T
    ensures NoDrift(p, base, T, 0, t)
  {
    assert EdgesAhead(p, base, T, t) * 0 == 0;
  }

  /**
   One good resync is enough for good: after a resync of 30 edges or more in the window, every later
   reading of the counter is the true edge number, for as long as SET_VSYNC returns at true edges.
   */
  lemma ExactForever(p: Predictor, base: int, T: int, M: int, called: int, returned: int, evs: seq<Event>)
    requires T >= 10 && Running(p, called) && called <= returned && Locked(p, base, T)
    requires M >= 30 && returned == p.edge + M * T && InWindow(p, T, M, 0)
    requires Chronological(evs, returned)
    requires forall i | 0 <= i < |evs| && evs[i].Resync? :: (evs[i].returned - base) % T == 0
    ensures Corrected(p, called, returned).period == T
    ensures Agree(Readings(Corrected(p, called, returned), evs), base, T, 0)
  {
    ExactRecovery(p, base, T, M, called, returned);
    var q := Corrected(p, called, returned);
    TruePeriodStaysInWindows(q, base, T, evs, returned);
    NoDriftAtAll(Final(q, evs), base, T, EndOf(evs, returned));
    RunAgrees(q, base, T, 0, evs, returned);
  }
}
