/** The millisecond clock, the scheduling quantum and the CPU-usage meter of the
    timer interrupt. */
module Timer {
  import opened Arithmetic

  /** The static counters of the driver. */
  datatype Clock = Clock(hz: nat, ticks: nat, ms: nat, remainder: nat, nextSchedule: nat,
                         total: nat, idle: nat, usage: nat, snapshot: nat)

  /** A timer interrupt, or a request for a rate; each sees the yield counter. */
  datatype Event = Tick(seen: nat) | SetRate(hz: nat, seen: nat)

  predicate Supported(hz: nat) {
    hz == 60 || hz == 100 || hz == 144
  }

  // ---- Meaning of the events ----------------------------------------------------------------

  function Accumulate(c: Clock): Clock
    requires c.hz > 0
  {
    var r := c.remainder + 1000 % c.hz;
    if r >= c.hz then c.(ms := c.ms + 1000 / c.hz + 1, remainder := r - c.hz)
    else c.(ms := c.ms + 1000 / c.hz, remainder := r)
  }

  /** `100 - ((idle * 100) / total)` in uint32. */
  function Usage(idle: nat, total: nat): nat
    requires total > 0
  {
    (100 - idle * 100 / total) % 0x1_0000_0000
  }

  lemma UsagePercent(idle: nat, total: nat)
    requires total > 0
    ensures idle <= total ==> Usage(idle, total) <= 100 && Usage(idle, total) == 100 - idle * 100 / total
  {
    if idle <= total {
      DivBound(idle * 100, total, 100);
    }
  }

  function Meter(c: Clock, seen: nat): Clock {
    var total, idle := c.total + 1, c.idle + (if seen != c.snapshot then 1 else 0);
    if total >= c.hz then c.(total := 0, idle := 0, snapshot := seen, usage := Usage(idle, total))
    else c.(total := total, idle := idle, snapshot := seen)
  }

  /** The quantum has run out. */
  predicate Due(c: Clock)
    requires c.hz > 0
  {
    Accumulate(c).ms >= c.nextSchedule
  }

  function AfterTick(c: Clock, seen: nat): Clock
    requires c.hz > 0
  {
    var d := Meter(Accumulate(c.(ticks := c.ticks + 1)), seen);
    if d.ms >= d.nextSchedule then d.(nextSchedule := d.ms + 20) else d
  }

  function AfterRate(c: Clock, hz: nat, seen: nat): Clock {
    if Supported(hz) then c.(hz := hz, remainder := 0, total := 0, idle := 0, snapshot := seen) else c
  }

  function Step(c: Clock, e: Event): (d: Clock)
    requires Supported(c.hz)
    ensures Supported(d.hz)
  {
    match e
    case Tick(y) => AfterTick(c, y)
    case SetRate(hz, y) => AfterRate(c, hz, y)
  }

  function Run(c: Clock, es: seq<Event>): (d: Clock)
    requires Supported(c.hz)
    ensures Supported(d.hz)
  {
    if es == [] then c else Step(Run(c, es[..|es| - 1]), es[|es| - 1])
  }

  function Boot(freq: nat): Clock {
    Clock(if Supported(freq) then freq else 60, 0, 0, 0, 0, 0, 0, 0, 0)
  }

  // ---- The clock does not drift -----------------------------------------------------------

  /** The length of a tick in units of 1/3600 ms, in which it is a whole number. */
  function Units(hz: nat): nat
    requires Supported(hz)
  {
    3600 * 1000 / hz
  }

  /** A tick in whole milliseconds and what is carried, at each rate. */
  lemma TickParts(c: Clock)
    requires Supported(c.hz)
    ensures var d, r := Accumulate(c), c.remainder;
            d == match c.hz
                 case 60 =>
                   if r >= 20 then c.(ms := c.ms + 17, remainder := r - 20)
                   else c.(ms := c.ms + 16, remainder := r + 40)
                 case 100 => if r >= 100 then c.(ms := c.ms + 11, remainder := r - 100) else c.(ms := c.ms + 10)
                 case _ =>
                   if r >= 8 then c.(ms := c.ms + 7, remainder := r - 8)
                   else c.(ms := c.ms + 6, remainder := r + 136)
    ensures Units(c.hz) == match c.hz case 60 => 60000 case 100 => 36000 case _ => 25000
  {
  }

  /** The exact time of all ticks of a run, in those units. */
  function Exact(c: Clock, es: seq<Event>): nat
    requires Supported(c.hz)
  {
    if es == [] then 0 else
      var before := es[..|es| - 1];
      Exact(c, before) + if es[|es| - 1].Tick? then Units(Run(c, before).hz) else 0
  }

  /** Accepted rate changes of a run. */
  function Changes(es: seq<Event>): nat {
    if es == [] then 0 else
      Changes(es[..|es| - 1]) + if es[|es| - 1].SetRate? && Supported(es[|es| - 1].hz) then 1 else 0
  }

  /** What the remainder is worth, in units of 1/3600 ms. */
  function Carried(c: Clock): nat {
    c.remainder * (if c.hz == 60 then 60 else if c.hz == 100 then 36 else 25)
  }

  ghost predicate Tracks(c: Clock, exact: nat, changes: nat) {
    && c.remainder < c.hz
    && 3600 * c.ms + Carried(c) <= exact <= 3600 * c.ms + Carried(c) + 3599 * changes
  }

  lemma TicksTracked(c: Clock, seen: nat, exact: nat, changes: nat)
    requires Supported(c.hz) && Tracks(c, exact, changes)
    ensures Tracks(AfterTick(c, seen), exact + Units(c.hz), changes)
  {
    hide Accumulate, Units, Usage;
    TickParts(c.(ticks := c.ticks + 1));
  }

  lemma RatesTracked(c: Clock, hz: nat, seen: nat, exact: nat, changes: nat)
    requires Supported(c.hz) && Supported(hz) && Tracks(c, exact, changes)
    ensures Tracks(AfterRate(c, hz, seen), exact, changes + 1)
  {
  }

  lemma {:induction false} NoDrift(freq: nat, es: seq<Event>)
    ensures Tracks(Run(Boot(freq), es), Exact(Boot(freq), es), Changes(es))
  {
    hide Tracks, AfterTick, AfterRate, Units;
    if es == [] {
      TracksBoot(freq);
    } else {
      var before, e := es[..|es| - 1], es[|es| - 1];
      NoDrift(freq, before);
      var c, exact, changes := Run(Boot(freq), before), Exact(Boot(freq), before), Changes(before);
      match e
      case Tick(seen) => TicksTracked(c, seen, exact, changes);
      case SetRate(hz, seen) =>
        RateRefused(c, hz, seen);
        if Supported(hz) {
          RatesTracked(c, hz, seen, exact, changes);
        }
    }
  }

  lemma TracksBoot(freq: nat)
    ensures Tracks(Boot(freq), 0, 0)
  {
  }

  lemma RateRefused(c: Clock, hz: nat, seen: nat)
    ensures !Supported(hz) ==> AfterRate(c, hz, seen) == c
  {
  }

  /** Over every run the clock never runs ahead, and lags the exact time by less than
      one millisecond for each rate it has run at. */
  lemma LagBounded(freq: nat, es: seq<Event>)
    ensures var c := Run(Boot(freq), es);
            3600 * c.ms <= Exact(Boot(freq), es) < 3600 * (c.ms + Changes(es) + 1)
  {
    hide Run, Exact, Changes;
    NoDrift(freq, es);
  }

  function Ticks(seen: seq<nat>): (es: seq<Event>)
    ensures |es| == |seen|
  {
    seq(|seen|, i requires 0 <= i < |seen| => Tick(seen[i]))
  }

  /** Within a segment the clock is exact: n ticks after a rate was set it has
      advanced by 1000 n / hz, rounded down. */
  lemma {:induction false} SegmentExact(c: Clock, seen: seq<nat>)
    requires Supported(c.hz) && c.remainder == 0
    ensures var d, n := Run(c, Ticks(seen)), |seen|;
            d.hz == c.hz && d.ms == c.ms + 1000 * n / c.hz && d.remainder == 1000 * n % c.hz
  {
    if seen != [] {
      hide Accumulate, Usage;
      var before := seen[..|seen| - 1];
      SegmentExact(c, before);
      assert Ticks(seen)[..|seen| - 1] == Ticks(before);
      var b, n := Run(c, Ticks(before)), |before|;
      TickParts(b.(ticks := b.ticks + 1));
      NoRest(n);
      match c.hz
      case 60 => NextTick(60, n, 16, 40);
      case 100 => NextTick(100, n, 10, 0);
      case _ => NextTick(144, n, 6, 136);
    }
  }

  /** Advancing a quotient and remainder by one tick of a whole ms and b rest. */
  lemma NextTick(hz: nat, n: nat, a: nat, b: nat)
    requires hz > 0 && 1000 == hz * a + b && b < hz
    ensures var q, r := 1000 * n / hz, 1000 * n % hz;
            if r + b >= hz then 1000 * (n + 1) / hz == q + a + 1 && 1000 * (n + 1) % hz == r + b - hz
            else 1000 * (n + 1) / hz == q + a && 1000 * (n + 1) % hz == r + b
  {
    var q, r := 1000 * n / hz, 1000 * n % hz;
    assert 1000 * n == hz * q + r;
    Carry(hz, q, r, a, b, 1000 * (n + 1));
  }

  lemma Carry(hz: nat, q: nat, r: nat, a: nat, b: nat, m: nat)
    requires r < hz && b < hz && m == hz * q + r + (hz * a + b)
    ensures m / hz == q + a + (if r + b >= hz then 1 else 0)
    ensures m % hz == r + b - (if r + b >= hz then hz else 0)
  {
    if r + b >= hz {
      ThreeParts(hz, q, a, 1);
      DivModUnique(m, q + a + 1, r + b - hz, hz);
    } else {
      ThreeParts(hz, q, a, 0);
      DivModUnique(m, q + a, r + b, hz);
    }
  }

  lemma ThreeParts(m: nat, a: nat, b: nat, c: nat)
    ensures m * (a + b + c) == m * a + m * b + m * c
  {
  }

  lemma NoRest(n: nat)
    ensures 1000 * n % 100 == 0
  {
    DivModUnique(1000 * n, 10 * n, 0, 100);
  }

  lemma TickForward(c: Clock, e: Event)
    requires Supported(c.hz)
    ensures c.ms <= Step(c, e).ms
  {
    hide Accumulate, Usage;
    TickParts(c.(ticks := c.ticks + 1));
  }

  /** The clock never goes back. */
  lemma {:induction false} Monotone(c: Clock, es: seq<Event>, es': seq<Event>)
    requires Supported(c.hz)
    ensures Run(c, es).ms <= Run(c, es + es').ms
  {
    if es' == [] {
      assert es + es' == es;
    } else {
      var before := es'[..|es'| - 1];
      hide Step;
      Monotone(c, es, before);
      TickForward(Run(c, es + before), es'[|es'| - 1]);
      assert (es + es')[..|es + es'| - 1] == es + before;
    }
  }

  // ---- Scheduling points --------------------------------------------------------------------

  /** The clock values at which the scheduler is called. */
  function Points(c: Clock, es: seq<Event>): seq<nat>
    requires Supported(c.hz)
  {
    if es == [] then [] else
      var before, e := es[..|es| - 1], es[|es| - 1];
      var b := Run(c, before);
      Points(c, before) + if e.Tick? && Due(b) then [Accumulate(b).ms] else []
  }

  /** What is known between scheduling points: at 60 Hz a remainder is left only by
      a tick of 16 or 17 ms, which is then the only one since the last point. */
  ghost predicate Quantum(c: Clock, points: seq<nat>) {
    && c.remainder < c.hz && (c.hz == 60 ==> c.remainder in {0, 20, 40}) && (c.hz == 100 ==> c.remainder == 0)
    && (points == [] ==> c.nextSchedule == 0)
    && (points != [] ==>
          var d := c.ms - points[|points| - 1];
          && c.nextSchedule == points[|points| - 1] + 20 && 0 <= d < 20
          && (d == 0 || d >= 6)
          && (c.hz == 60 && c.remainder > 0 ==> d == 0 || 16 <= d <= 17))
  }

  ghost predicate Spaced(points: seq<nat>) {
    forall i | 1 <= i < |points| :: points[i - 1] + 20 <= points[i] <= points[i - 1] + 35
  }

  lemma QuantumTick(c: Clock, points: seq<nat>, seen: nat)
    requires Supported(c.hz) && Quantum(c, points) && Spaced(points)
    ensures var points' := points + if Due(c) then [Accumulate(c).ms] else [];
            Quantum(AfterTick(c, seen), points') && Spaced(points')
  {
    hide Accumulate, Usage;
    TickParts(c);
    TickParts(c.(ticks := c.ticks + 1));
  }

  /** In every run, with any rate changes, scheduling points are 20 to 35 ms apart. */
  lemma {:induction false} PointsSpaced(freq: nat, es: seq<Event>)
    ensures Quantum(Run(Boot(freq), es), Points(Boot(freq), es)) && Spaced(Points(Boot(freq), es))
  {
    if es != [] {
      var before, e := es[..|es| - 1], es[|es| - 1];
      PointsSpaced(freq, before);
      hide Quantum, Spaced, AfterTick, AfterRate, Due, Accumulate;
      match e
      case Tick(seen) => QuantumTick(Run(Boot(freq), before), Points(Boot(freq), before), seen);
      case SetRate(hz, seen) => QuantumRate(Run(Boot(freq), before), Points(Boot(freq), before), hz, seen);
    }
  }

  lemma QuantumRate(c: Clock, points: seq<nat>, hz: nat, seen: nat)
    requires Quantum(c, points)
    ensures Quantum(AfterRate(c, hz, seen), points)
  {
  }

  // ---- CPU usage --------------------------------------------------------------------------------

  /** Over every run the reported usage is a percentage, and the counters restart
      before they reach a second. */
  lemma {:induction false} UsageInRange(freq: nat, es: seq<Event>)
    ensures var c := Run(Boot(freq), es); c.usage <= 100 && c.idle <= c.total < c.hz
  {
    if es != [] {
      hide Step;
      UsageInRange(freq, es[..|es| - 1]);
      UsageStep(Run(Boot(freq), es[..|es| - 1]), es[|es| - 1]);
    }
  }

  lemma UsageStep(c: Clock, e: Event)
    requires Supported(c.hz) && c.usage <= 100 && c.idle <= c.total < c.hz
    ensures var d := Step(c, e); d.usage <= 100 && d.idle <= d.total < d.hz
  {
    hide Accumulate, Usage;
    TickParts(c.(ticks := c.ticks + 1));
    UsagePercent(c.idle, c.total + 1);
    UsagePercent(c.idle + 1, c.total + 1);
  }

  /** The yield counter that the last tick saw. */
  function LastSeen(snapshot: nat, seen: seq<nat>): nat {
    if seen == [] then snapshot else seen[|seen| - 1]
  }

  /** Ticks at which the yield counter differs from what the tick before saw. */
  function Yielded(snapshot: nat, seen: seq<nat>): nat {
    if seen == [] then 0
    else
      var before := seen[..|seen| - 1];
      Yielded(snapshot, before) + if seen[|seen| - 1] != LastSeen(snapshot, before) then 1 else 0
  }

  lemma {:induction false} SecondSoFar(c: Clock, seen: seq<nat>)
    requires Supported(c.hz) && c.total == 0 && c.idle == 0 && |seen| < c.hz
    ensures var d := Run(c, Ticks(seen));
            && d.hz == c.hz && d.total == |seen| && d.usage == c.usage
            && d.idle == Yielded(c.snapshot, seen) && d.snapshot == LastSeen(c.snapshot, seen)
  {
    hide Accumulate, Usage;
    if seen != [] {
      var before := seen[..|seen| - 1];
      SecondSoFar(c, before);
      assert Ticks(seen)[..|seen| - 1] == Ticks(before);
      var b := Run(c, Ticks(before));
      TickParts(b.(ticks := b.ticks + 1));
    }
  }

  lemma {:induction false} YieldedBound(snapshot: nat, seen: seq<nat>)
    ensures Yielded(snapshot, seen) <= |seen|
  {
    if seen != [] {
      YieldedBound(snapshot, seen[..|seen| - 1]);
    }
  }

  /** Over a whole second the usage is 100 less the percentage of ticks that found the
      yield counter changed, and the next second starts afresh. */
  lemma UsageOfSecond(c: Clock, seen: seq<nat>)
    requires Supported(c.hz) && c.total == 0 && c.idle == 0 && |seen| == c.hz
    ensures var d := Run(c, Ticks(seen));
            && d.usage == 100 - Yielded(c.snapshot, seen) * 100 / c.hz
            && d.total == 0 && d.idle == 0 && d.snapshot == seen[|seen| - 1]
  {
    hide Run, Usage, AfterTick, Yielded;
    var before, y := seen[..|seen| - 1], seen[|seen| - 1];
    SecondSoFar(c, before);
    var b := Run(c, Ticks(before));
    assert Ticks(seen) == Ticks(before) + [Tick(y)];
    PointsNext(c, Ticks(before), Tick(y));
    MeterTurns(b, y);
    YieldedNext(c.snapshot, seen);
    YieldedBound(c.snapshot, seen);
    UsagePercent(Yielded(c.snapshot, seen), c.hz);
  }

  lemma YieldedNext(snapshot: nat, seen: seq<nat>)
    requires seen != []
    ensures var before := seen[..|seen| - 1];
            Yielded(snapshot, seen) ==
            Yielded(snapshot, before) + if seen[|seen| - 1] != LastSeen(snapshot, before) then 1 else 0
  {
  }

  /** The last tick of a second publishes the usage and restarts the counters. */
  lemma MeterTurns(c: Clock, y: nat)
    requires Supported(c.hz) && c.total + 1 == c.hz
    ensures var d := AfterTick(c, y);
            && d.usage == Usage(c.idle + (if y != c.snapshot then 1 else 0), c.hz)
            && d.total == 0 && d.idle == 0 && d.snapshot == y
  {
    hide Accumulate, Usage;
    TickParts(c.(ticks := c.ticks + 1));
  }

  // ---- The bounds are reached ----------------------------------------------------------------

  /** The distance between the last two points of a run. */
  function LastGap(points: seq<nat>): int
    requires |points| >= 2
  {
    points[|points| - 1] as int - points[|points| - 2]
  }

  lemma PointsNext(c: Clock, es: seq<Event>, e: Event)
    requires Supported(c.hz)
    ensures Run(c, es + [e]) == Step(Run(c, es), e)
    ensures Points(c, es + [e]) ==
            Points(c, es) + if e.Tick? && Due(Run(c, es)) then [Accumulate(Run(c, es)).ms] else []
  {
    hide Step, Due, Accumulate;
    assert (es + [e])[..|es + [e]| - 1] == es;
  }

  /** The clock stands at ms, carries r at rate hz, and has had these points. */
  ghost predicate Stands(b: Clock, es: seq<Event>, hz: nat, ms: nat, r: nat, points: seq<nat>)
    requires Supported(b.hz)
  {
    && Run(b, es).hz == hz && Run(b, es).ms == ms && Run(b, es).remainder == r && Points(b, es) == points
    && Run(b, es).nextSchedule == if points == [] then 0 else points[|points| - 1] + 20
  }

  lemma TickTo(b: Clock, es: seq<Event>, hz: nat, ms: nat, r: nat, points: seq<nat>,
               e: Event, step: nat, r': nat, points': seq<nat>)
    requires Supported(b.hz) && Stands(b, es, hz, ms, r, points) && e.Tick?
    requires step == 1000 / hz + (if r + 1000 % hz >= hz then 1 else 0)
    requires r' == r + 1000 % hz - (if r + 1000 % hz >= hz then hz else 0)
    requires points' == if points == [] || ms + step >= points[|points| - 1] + 20 then points + [ms + step] else points
    ensures Stands(b, es + [e], hz, ms + step, r', points')
  {
    hide Usage, Run, Points;
    PointsNext(b, es, e);
  }

  lemma RateTo(b: Clock, es: seq<Event>, hz: nat, ms: nat, r: nat, points: seq<nat>, e: Event)
    requires Supported(b.hz) && Stands(b, es, hz, ms, r, points) && e.SetRate? && Supported(e.hz)
    ensures Stands(b, es + [e], e.hz, ms, 0, points)
  {
    hide Usage, Run, Points;
    PointsNext(b, es, e);
  }

  lemma StandsAtBoot(freq: nat)
    requires Supported(freq)
    ensures Stands(Boot(freq), [], freq, 0, 0, [])
  {
  }

  lemma WideRun(b: Clock, t: Event, r: Event, s: Event) returns (es: seq<Event>)
    requires b == Boot(144) && t == Tick(0) && r == SetRate(144, 0) && s == SetRate(60, 0)
    ensures Points(b, es) == [6, 41]
  {
    hide Stands, Run, Points;
    StandsAtBoot(144);
    TickTo(b, [], 144, 0, 0, [], t, 6, 136, [6]);
    es := [] + [t];
    RateTo(b, es, 144, 6, 136, [6], r);
    es := es + [r];
    TickTo(b, es, 144, 6, 0, [6], t, 6, 136, [6]);
    es := es + [t];
    RateTo(b, es, 144, 12, 136, [6], r);
    es := es + [r];
    TickTo(b, es, 144, 12, 0, [6], t, 6, 136, [6]);
    es := es + [t];
    TickTo(b, es, 144, 18, 136, [6], t, 7, 128, [6]);
    es := es + [t];
    RateTo(b, es, 144, 25, 128, [6], s);
    es := es + [s];
    TickTo(b, es, 60, 25, 0, [6], t, 16, 40, [6, 41]);
    es := es + [t];
    ReachesPoints(b, es, 60, 41, 40, [6, 41]);
  }

  /** 35 ms occurs: after a point, ticks of 6, 6 and 7 ms at 144 Hz with a rate reset before each 6
      and then a change to 60 Hz with a tick of 16 ms. */
  lemma WidestGap() returns (es: seq<Event>)
    ensures |Points(Boot(144), es)| >= 2 && LastGap(Points(Boot(144), es)) == 35
  {
    hide Run, Points;
    es := WideRun(Boot(144), Tick(0), SetRate(144, 0), SetRate(60, 0));
  }

  lemma NarrowRun(b: Clock, t: Event) returns (es: seq<Event>)
    requires b == Boot(100) && t == Tick(0)
    ensures Points(b, es) == [10, 30]
  {
    hide Stands, Run, Points;
    StandsAtBoot(100);
    TickTo(b, [], 100, 0, 0, [], t, 10, 0, [10]);
    es := [] + [t];
    TickTo(b, es, 100, 10, 0, [10], t, 10, 0, [10]);
    es := es + [t];
    TickTo(b, es, 100, 20, 0, [10], t, 10, 0, [10, 30]);
    es := es + [t];
    ReachesPoints(b, es, 100, 30, 0, [10, 30]);
  }

  /** 20 ms occurs at 100 Hz. */
  lemma NarrowestGap() returns (es: seq<Event>)
    ensures |Points(Boot(100), es)| >= 2 && LastGap(Points(Boot(100), es)) == 20
  {
    hide Run, Points;
    es := NarrowRun(Boot(100), Tick(0));
  }

  lemma ReachesPoints(b: Clock, es: seq<Event>, hz: nat, ms: nat, r: nat, points: seq<nat>)
    requires Supported(b.hz) && Stands(b, es, hz, ms, r, points)
    ensures Points(b, es) == points
  {
  }

  // ---- The driver ------------------------------------------------------------------------------

  class Driver {
    var hz: nat
    var ticks: nat
    var ms: nat
    var remainder: nat
    var total: nat
    var idle: nat
    var usage: nat
    var snapshot: nat
    var nextSchedule: nat
    ghost var history: seq<Event>
    ghost const start: Clock

    ghost function State(): Clock
      reads this
    {
      Clock(hz, ticks, ms, remainder, nextSchedule, total, idle, usage, snapshot)
    }

    /** The fields are what the run so far makes of the state at boot. */
    ghost predicate Valid()
      reads this
    {
      Supported(start.hz) && State() == Run(start, history)
    }

    /** `init_timer`. */
    constructor (freq: nat)
      ensures Valid() && start == Boot(freq) && history == []
      ensures hz == (if freq in {60, 100, 144} then freq else 60) && ms == 0 && ticks == 0
    {
      hz := if freq == 60 || freq == 100 || freq == 144 then freq else 60;
      ticks, ms, remainder := 0, 0, 0;
      total, idle, usage, snapshot, nextSchedule := 0, 0, 0, 0, 0;
      history := [];
      start := Boot(freq);
    }

    /** `timer_set_refresh_rate`. */
    method SetRefreshRate(rate: nat, seen: nat) returns (ok: bool)
      requires Valid()
      modifies this
      ensures Valid() && history == old(history) + [SetRate(rate, seen)]
      ensures ok <==> rate in {60, 100, 144}
      ensures if ok then hz == rate && ms == old(ms) && remainder == 0 else State() == old(State())
    {
      PointsNext(start, history, SetRate(rate, seen));
      history := history + [SetRate(rate, seen)];
      if rate != 60 && rate != 100 && rate != 144 {
        return false;
      }
      hz, remainder, total, idle, snapshot := rate, 0, 0, 0, seen;
      ok := true;
    }

    /** `timer_accumulate_ms`. */
    method AccumulateMs()
      requires hz > 0
      modifies this`ms, this`remainder
      ensures State() == Accumulate(old(State()))
    {
      ms := ms + 1000 / hz;
      remainder := remainder + 1000 % hz;
      if remainder >= hz {
        ms := ms + 1;
        remainder := remainder - hz;
      }
    }

    /** The CPU-usage part of `timer_handler`. */
    method MeterTick(seen: nat)
      requires hz > 0
      modifies this`total, this`idle, this`usage, this`snapshot
      ensures State() == Meter(old(State()), seen)
    {
      hide Usage;
      total := total + 1;
      if seen != snapshot {
        idle := idle + 1;
      }
      snapshot := seen;
      if total >= hz {
        usage := Usage(idle, total);
        total, idle := 0, 0;
      }
    }

    /** `timer_handler`: whether it calls the scheduler. */
    method Handle(seen: nat) returns (switched: bool)
      requires Valid()
      modifies this
      ensures Valid() && history == old(history) + [Tick(seen)] && ticks == old(ticks) + 1
      ensures Points(start, history) == Points(start, old(history)) + if switched then [ms] else []
    {
      hide Run, Accumulate, Meter, Points;
      PointsNext(start, history, Tick(seen));
      TicksApart(State(), seen);
      ticks := ticks + 1;
      AccumulateMs();
      MeterTick(seen);
      switched := ms >= nextSchedule;
      if switched {
        nextSchedule := ms + 20;
      }
      history := history + [Tick(seen)];
    }
  }

  /** Neither the tick count nor the meter touches the clock. */
  lemma TicksApart(c: Clock, seen: nat)
    requires c.hz > 0
    ensures var d := Accumulate(c.(ticks := c.ticks + 1));
            && d.ms == Accumulate(c).ms && d.nextSchedule == c.nextSchedule
            && Meter(d, seen).ms == d.ms && Meter(d, seen).nextSchedule == d.nextSchedule
  {
    hide Usage;
  }
}
