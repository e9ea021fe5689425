/**
 The throughput window and the image quality that follows it.

 Times are in nanoseconds and never go back. Throughput is a real number: rounding of 64-bit floating
 point is not modelled, the casts to `u8` and the wrap-around of `u8` arithmetic are.
 */
module Quality {
  import opened Prelude

  const NANOS: nat := 1_000_000_000

  type u8 = n: int | 0 <= n < 256

  // ------------------------------------------------------------------ throughput

  datatype Send = Send(at: nat, bytes: nat)

  function TotalBytes(sends: seq<Send>): nat {
    if sends == [] then 0 else TotalBytes(sends[..|sends| - 1]) + sends[|sends| - 1].bytes
  }

  /** Megabits per second from the oldest send in the window until now. */
  function Mbps(sends: seq<Send>, now: nat): real {
    if |sends| < 2 then 0.0
    else
      var span := Max(now - sends[0].at, 0) as real / NANOS as real;
      if span < 0.001 then 0.0 else TotalBytes(sends) as real * 8.0 / span / 1_000_000.0
  }

  class ThroughputTracker {
    var sendHistory: seq<Send>
    const windowSize: nat
    /** All sends since the tracker was cleared. */
    ghost var all: seq<Send>

    ghost predicate Valid()
      reads this
    {
      sendHistory == LastN(all, windowSize)
    }

    constructor (windowSize: nat)
      ensures Valid() && this.windowSize == windowSize && all == []
    {
      this.windowSize, sendHistory, all := windowSize, [], [];
    }

    /** The window holds exactly the last sends, as many as fit. */
    method TrackSent(now: nat, bytes: nat)
      requires Valid()
      modifies this
      ensures Valid() && all == old(all) + [Send(now, bytes)]
    {
      sendHistory := sendHistory + [Send(now, bytes)];
      all := all + [Send(now, bytes)];
      if |sendHistory| > windowSize {
        sendHistory := sendHistory[1..];
      }
    }

    method ThroughputMbps(now: nat) returns (r: real)
      requires Valid()
      ensures r == Mbps(LastN(all, windowSize), now) >= 0.0
    {
      if |sendHistory| < 2 {
        return 0.0;
      }
      var total := 0;
      var i := 0;
      while i < |sendHistory|
        invariant 0 <= i <= |sendHistory|
        invariant total == TotalBytes(sendHistory[..i])
      {
        assert sendHistory[..i + 1][..i] == sendHistory[..i];
        total := total + sendHistory[i].bytes;
        i := i + 1;
      }
      assert sendHistory[..i] == sendHistory;
      var span := Max(now - sendHistory[0].at, 0) as real / NANOS as real;
      if span < 0.001 {
        return 0.0;
      }
      return total as real * 8.0 / span / 1_000_000.0;
    }

    method Clear()
      modifies this
      ensures Valid() && all == []
    {
      sendHistory, all := [], [];
    }
  }

  // ------------------------------------------------------------------ the target for a throughput

  /** `r as u8` for a float. */
  function CastU8(r: real): u8 {
    if r < 0.0 then 0 else if r.Floor > 255 then 255 else r.Floor
  }

  /** Addition and subtraction on `u8` as a release build does them. */
  function WrapU8(n: int): u8 {
    n % 256
  }

  function Scaled(fraction: real, span: real): real {
    fraction * span
  }

  /** A fraction of the span `k`, cut to a whole number. */
  function Part(fraction: real, k: int): u8 {
    CastU8(Scaled(fraction, k as real))
  }

  function Target(mbps: real, maxQuality: u8): u8 {
    if mbps >= 10.0 then maxQuality
    else if mbps >= 1.0 then WrapU8(50 + Part((mbps - 1.0) / 9.0, WrapU8(maxQuality - 50)))
    else if mbps >= 0.1 then WrapU8(20 + Part((mbps - 0.1) / 0.9, 30))
    else WrapU8(10 + Part(mbps / 0.1, 10))
  }

  /** The four bands of the target: emergency, reduced, scaled, full. */
  function Band(mbps: real): nat {
    if mbps >= 10.0 then 3 else if mbps >= 1.0 then 2 else if mbps >= 0.1 then 1 else 0
  }

  lemma DivisionMonotone(x: real, y: real, full: real)
    ensures 0.0 <= x <= y < full ==> 0.0 <= x / full <= y / full <= 1.0
  {
  }

  lemma ScaledMonotone(a: real, b: real, span: real)
    requires 0.0 <= a <= b <= 1.0 && span >= 0.0
    ensures 0.0 <= Scaled(a, span) <= Scaled(b, span) <= span
  {
    NotNegative(a, span);
    NotNegative(b - a, span);
    NotNegative(1.0 - b, span);
    assert (b - a) * span == b * span - a * span && (1.0 - b) * span == span - b * span;
  }

  lemma NotNegative(a: real, f: real)
    ensures a >= 0.0 && f >= 0.0 ==> a * f >= 0.0
  {
  }

  lemma PartMonotone(a: real, b: real, k: int)
    requires 0.0 <= a <= b <= 1.0 && 0 <= k <= 255
    ensures 0 <= Part(a, k) <= Part(b, k) <= k
  {
    ScaledMonotone(a, b, k as real);
    assert 0 <= CastU8(Scaled(a, k as real)) <= CastU8(Scaled(b, k as real)) <= k;
  }

  lemma NoWrap(n: int)
    ensures 0 <= n < 256 ==> WrapU8(n) == n
  {
  }

  /** Every band has its own range, and the bands follow each other. Below a maximum of 50 the third band
      wraps around. */
  lemma TargetInBand(mbps: real, maxQuality: u8)
    requires mbps >= 0.0 && maxQuality <= 100
    ensures var q := Target(mbps, maxQuality);
            match Band(mbps)
            case 0 => 10 <= q <= 20
            case 1 => 20 <= q <= 50
            case 2 => if maxQuality >= 50 then 50 <= q <= maxQuality else q >= 50 || q <= maxQuality
            case _ => q == maxQuality
  {
    if Band(mbps) != 2 || maxQuality >= 50 {
      BandMonotone(mbps, mbps, maxQuality);
    } else {
      var fraction := (mbps - 1.0) / 9.0;
      DivisionMonotone(mbps - 1.0, mbps - 1.0, 9.0);
      PartMonotone(fraction, fraction, 206 + maxQuality);
      WrapOnce(maxQuality - 50);
      WrapOnce(50 + Part(fraction, 206 + maxQuality));
    }
  }

  lemma WrapOnce(n: int)
    ensures -256 <= n < 512 ==> WrapU8(n) == if n < 0 then n + 256 else if n < 256 then n else n - 256
  {
  }

  lemma BandMonotone(a: real, b: real, maxQuality: u8)
    requires 0.0 <= a <= b && maxQuality <= 100 && Band(a) == Band(b) && (Band(a) == 2 ==> maxQuality >= 50)
    ensures Target(a, maxQuality) <= Target(b, maxQuality)
    ensures match Band(a)
            case 0 => 10 <= Target(a, maxQuality) && Target(b, maxQuality) <= 20
            case 1 => 20 <= Target(a, maxQuality) && Target(b, maxQuality) <= 50
            case 2 => 50 <= Target(a, maxQuality) && Target(b, maxQuality) <= maxQuality
            case _ => Target(a, maxQuality) == maxQuality == Target(b, maxQuality)
  {
    var band := Band(a);
    if band == 3 {
    } else {
      var base, x, y, full, k :=
        if band == 0 then 10 else if band == 1 then 20 else 50,
        if band == 0 then a else if band == 1 then a - 0.1 else a - 1.0,
        if band == 0 then b else if band == 1 then b - 0.1 else b - 1.0,
        if band == 0 then 0.1 else if band == 1 then 0.9 else 9.0,
        if band == 0 then 10 else if band == 1 then 30 else maxQuality - 50;
      DivisionMonotone(x, y, full);
      PartMonotone(x / full, y / full, k);
      NoWrap(k);
      NoWrap(base + Part(x / full, k));
      NoWrap(base + Part(y / full, k));
    }
  }

  /** The target never leaves 10..max exactly when the maximum is at least 50: below that, the third
      band starts above it. */
  lemma TargetBoundedIff(maxQuality: u8)
    requires 10 <= maxQuality <= 100
    ensures (forall mbps :: mbps >= 0.0 ==> 10 <= Target(mbps, maxQuality) <= maxQuality) <==> maxQuality >= 50
  {
    if maxQuality >= 50 {
      forall mbps: real | mbps >= 0.0
        ensures 10 <= Target(mbps, maxQuality) <= maxQuality
      {
        TargetInBand(mbps, maxQuality);
      }
    } else {
      assert CastU8(0.0) == 0;
      assert Target(1.0, maxQuality) == 50;
    }
  }

  ghost predicate Monotone(maxQuality: u8) {
    forall a, b :: 0.0 <= a <= b ==> Target(a, maxQuality) <= Target(b, maxQuality)
  }

  lemma TargetMonotone(a: real, b: real, maxQuality: u8)
    requires 0.0 <= a <= b && 50 <= maxQuality <= 100
    ensures Target(a, maxQuality) <= Target(b, maxQuality)
  {
    if Band(a) == Band(b) {
      BandMonotone(a, b, maxQuality);
    } else {
      assert Band(a) < Band(b);
      TargetInBand(a, maxQuality);
      TargetInBand(b, maxQuality);
    }
  }

  /** More throughput never lowers the target, across all four bands, exactly when the maximum is at
      least 50. */
  lemma MonotoneIff(maxQuality: u8)
    requires maxQuality <= 100
    ensures Monotone(maxQuality) <==> maxQuality >= 50
  {
    if maxQuality >= 50 {
      forall a: real, b: real | 0.0 <= a <= b
        ensures Target(a, maxQuality) <= Target(b, maxQuality)
      {
        TargetMonotone(a, b, maxQuality);
      }
    } else {
      assert CastU8(0.0) == 0;
      assert Target(1.0, maxQuality) == 50 && Target(10.0, maxQuality) == maxQuality;
    }
  }

  // ------------------------------------------------------------------ one adjustment

  function Clamp(n: int, lo: int, hi: int): int {
    if n < lo then lo else if n > hi then hi else n
  }

  datatype Config = Config(minQuality: u8, maxQuality: u8, intervalSecs: nat, maxChange: u8)

  predicate ConfigOk(c: Config) {
    10 <= c.minQuality <= c.maxQuality <= 100 && c.intervalSecs >= 1 && 1 <= c.maxChange <= 50
  }

  /** Towards the target by at most the step limit, then into the configured range. */
  function Adjust(c: Config, q: u8, target: u8): (r: u8)
    requires ConfigOk(c)
  {
    var moved := if target > q then Min(Min(q + c.maxChange, 255), target) else Max(Max(q - c.maxChange, 0), target);
    Clamp(moved, c.minQuality, c.maxQuality)
  }

  predicate InRange(c: Config, q: u8) {
    c.minQuality <= q <= c.maxQuality
  }

  function Distance(a: int, b: int): nat {
    if a <= b then b - a else a - b
  }

  /** Whatever came before, an adjustment ends in the configured range. */
  lemma AdjustLandsInRange(c: Config, q: u8, target: u8)
    ensures ConfigOk(c) ==> InRange(c, Adjust(c, q, target))
  {
  }

  /** From inside the range, an adjustment goes straight for the target as far as the range allows it,
      by the step limit or the whole way. */
  lemma AdjustApproaches(c: Config, q: u8, target: u8)
    requires ConfigOk(c) && InRange(c, q)
    ensures var goal, r := Clamp(target, c.minQuality, c.maxQuality), Adjust(c, q, target);
            && (q <= goal ==> q <= r <= goal)
            && (q >= goal ==> goal <= r <= q)
            && Distance(r, goal) == Max(Distance(q, goal) - c.maxChange, 0)
            && Distance(q, r) <= c.maxChange
  {
  }

  /** `d / k`, rounded up. */
  function CeilDiv(d: nat, k: nat): nat
    requires k > 0
  {
    (d + k - 1) / k
  }

  function AdjustTimes(c: Config, q: u8, target: u8, n: nat): u8
    requires ConfigOk(c)
  {
    if n == 0 then q else Adjust(c, AdjustTimes(c, q, target, n - 1), target)
  }

  lemma NextMultiple(k: int, m: int)
    ensures (k + 1) * m == k * m + m
  {
  }

  lemma {:induction false} DistanceAfter(c: Config, q: u8, target: u8, n: nat)
    requires ConfigOk(c) && InRange(c, q)
    ensures InRange(c, AdjustTimes(c, q, target, n))
    ensures var goal := Clamp(target, c.minQuality, c.maxQuality);
            Distance(AdjustTimes(c, q, target, n), goal) == Max(Distance(q, goal) - n * c.maxChange, 0)
  {
    if n > 0 {
      DistanceAfter(c, q, target, n - 1);
      AdjustApproaches(c, AdjustTimes(c, q, target, n - 1), target);
      AdjustLandsInRange(c, AdjustTimes(c, q, target, n - 1), target);
      NextMultiple(n - 1, c.maxChange);
    }
  }

  /** Under a constant target the goal is reached after exactly ceil(distance / step limit)
      adjustments, and kept from then on. */
  lemma ReachedIff(c: Config, q: u8, target: u8, n: nat)
    requires ConfigOk(c) && InRange(c, q)
    ensures var goal := Clamp(target, c.minQuality, c.maxQuality);
            AdjustTimes(c, q, target, n) == goal <==> n >= CeilDiv(Distance(q, goal), c.maxChange)
  {
    var goal := Clamp(target, c.minQuality, c.maxQuality);
    DistanceAfter(c, q, target, n);
    CeilIff(Distance(q, goal), c.maxChange, n);
  }

  lemma CeilIff(d: nat, k: nat, n: nat)
    requires k > 0
    ensures n * k >= d <==> n >= CeilDiv(d, k)
  {
    var c := CeilDiv(d, k);
    assert c * k <= d + k - 1 < c * k + k;
    if n >= c {
      assert n * k >= c * k;
    } else {
      assert (n + 1) * k <= c * k;
      assert n * k + k <= c * k;
    }
  }

  // ------------------------------------------------------------------ the controller

  datatype State = State(config: Config, quality: u8, lastAdjustment: nat, window: seq<Send>)

  datatype Event = Frame(at: nat, bytes: nat) | Calculate(at: nat, later: nat)

  const WINDOW_SIZE: nat := 10

  /** Is this call far enough from the last adjustment, with samples to go by? */
  predicate Adjusts(s: State, now: nat) {
    && Max(now - s.lastAdjustment, 0) / NANOS >= s.config.intervalSecs
    && |s.window| >= 2
  }

  function Step(s: State, e: Event): State
    requires ConfigOk(s.config)
  {
    match e
    case Frame(at, bytes) => s.(window := LastN(s.window + [Send(at, bytes)], WINDOW_SIZE))
    case Calculate(at, later) =>
      if Adjusts(s, at) then
        s.(quality := Adjust(s.config, s.quality, Target(Mbps(s.window, later), s.config.maxQuality)),
           lastAdjustment := at)
      else s
  }

  class AdaptiveQuality {
    var currentQuality: u8
    var minQuality: u8
    var maxQuality: u8
    const tracker: ThroughputTracker
    var lastAdjustment: nat
    var adjustmentIntervalSecs: nat
    var maxAdjustment: u8

    ghost function Now(): State
      reads this, tracker
    {
      State(Config(minQuality, maxQuality, adjustmentIntervalSecs, maxAdjustment), currentQuality, lastAdjustment,
            LastN(tracker.all, WINDOW_SIZE))
    }

    ghost predicate Valid()
      reads this, tracker
    {
      ConfigOk(Now().config) && tracker.Valid() && tracker.windowSize == WINDOW_SIZE
    }

    /** The initial quality is the argument itself, not the clamped maximum. */
    constructor (maxQuality: u8, now: nat)
      ensures Valid() && fresh(tracker)
      ensures Now() == State(Config(10, Clamp(maxQuality, 10, 100), 1, 10), maxQuality, now, [])
      ensures InRange(Now().config, Now().quality) <==> 10 <= maxQuality <= 100
    {
      currentQuality, minQuality, this.maxQuality := maxQuality, 10, Clamp(maxQuality, 10, 100);
      tracker := new ThroughputTracker(WINDOW_SIZE);
      lastAdjustment, adjustmentIntervalSecs, maxAdjustment := now, 1, 10;
    }

    method WithMinQuality(min: u8)
      requires Valid()
      modifies this
      ensures Valid()
      ensures var lo := Clamp(min, 10, old(maxQuality));
              Now() == old(Now()).(config := old(Now()).config.(minQuality := lo), quality := Max(old(currentQuality), lo))
    {
      minQuality := Clamp(min, 10, maxQuality);
      currentQuality := Max(currentQuality, minQuality);
    }

    method TrackFrameSent(now: nat, bytes: nat)
      requires Valid()
      modifies tracker
      ensures Valid() && Now() == Step(old(Now()), Frame(now, bytes))
    {
      tracker.TrackSent(now, bytes);
    }

    /** `later` is the second reading of the clock, inside the throughput calculation. */
    method CalculateQuality(now: nat, later: nat) returns (q: u8)
      requires Valid()
      modifies this
      ensures Valid() && Now() == Step(old(Now()), Calculate(now, later))
      ensures q == currentQuality
      ensures Adjusts(old(Now()), now) ==> InRange(Now().config, q)
    {
      if Max(now - lastAdjustment, 0) / NANOS < adjustmentIntervalSecs {
        return currentQuality;
      }
      if |tracker.sendHistory| < 2 {
        return currentQuality;
      }
      var mbps := tracker.ThroughputMbps(later);
      var target := Target(mbps, maxQuality);
      AdjustLandsInRange(Now().config, currentQuality, target);
      var moved := if target > currentQuality then Min(Min(currentQuality + maxAdjustment, 255), target)
                   else Max(Max(currentQuality - maxAdjustment, 0), target);
      currentQuality := Clamp(moved, minQuality, maxQuality);
      lastAdjustment := now;
      return currentQuality;
    }

    method Reset(now: nat)
      requires Valid()
      modifies this, tracker
      ensures Valid() && Now() == State(old(Now()).config, old(maxQuality), now, [])
    {
      currentQuality := maxQuality;
      tracker.Clear();
      lastAdjustment := now;
    }

    method ConfigureAdjustment(intervalSecs: nat, maxChange: u8)
      requires Valid()
      modifies this
      ensures Valid()
      ensures Now() == old(Now()).(config := old(Now()).config.(intervalSecs := Max(intervalSecs, 1),
                                                               maxChange := Clamp(maxChange, 1, 50)))
    {
      adjustmentIntervalSecs := Max(intervalSecs, 1);
      maxAdjustment := Clamp(maxChange, 1, 50);
    }
  }

  // ------------------------------------------------------------------ drift over a run

  function Run(s: State, events: seq<Event>): (r: State)
    requires ConfigOk(s.config)
    ensures r.config == s.config
  {
    if events == [] then s else Step(Run(s, events[..|events| - 1]), events[|events| - 1])
  }

  predicate Adjusting(s: State, e: Event) {
    e.Calculate? && Adjusts(s, e.at)
  }

  /** How many of the calls adjust the quality. */
  function Adjustments(s: State, events: seq<Event>): nat
    requires ConfigOk(s.config)
  {
    if events == [] then 0
    else
      var n := |events| - 1;
      Adjustments(s, events[..n]) + (if Adjusting(Run(s, events[..n]), events[n]) then 1 else 0)
  }

  /** An adjustment now would go for this target. */
  predicate AimsAt(s: State, e: Event, target: u8) {
    Adjusting(s, e) ==> Target(Mbps(s.window, e.later), s.config.maxQuality) == target
  }

  /** Every adjustment of the run measures a throughput with this target. */
  ghost predicate SteadyTarget(s: State, events: seq<Event>, target: u8)
    requires ConfigOk(s.config)
  {
    forall n | 0 <= n < |events| :: AimsAt(Run(s, events[..n]), events[n], target)
  }

  /** The quality `q`, or what one adjustment makes of it. */
  function QualityAfter(c: Config, q: u8, target: u8, adjusting: bool): u8
    requires ConfigOk(c)
  {
    if adjusting then Adjust(c, q, target) else q
  }

  lemma AimedStep(s: State, e: Event, target: u8)
    requires ConfigOk(s.config) && AimsAt(s, e, target)
    ensures Step(s, e).quality == QualityAfter(s.config, s.quality, target, Adjusting(s, e))
  {
  }

  lemma SteadyBefore(s: State, events: seq<Event>, target: u8)
    requires ConfigOk(s.config) && events != [] && SteadyTarget(s, events, target)
    ensures SteadyTarget(s, events[..|events| - 1], target)
  {
    var init := events[..|events| - 1];
    forall i | 0 <= i < |init|
      ensures AimsAt(Run(s, init[..i]), init[i], target)
    {
      assert init[..i] == events[..i];
    }
  }

  /** The run has adjusted the quality to the target again and again. */
  predicate Repeats(s: State, events: seq<Event>, target: u8)
    requires ConfigOk(s.config)
  {
    Reaches(s.config, s.quality, target, Adjustments(s, events), Run(s, events).quality)
  }

  predicate Reaches(c: Config, start: u8, target: u8, n: nat, q: u8)
    requires ConfigOk(c)
  {
    q == AdjustTimes(c, start, target, n)
  }

  lemma {:induction false} SteadyRunIsRepeatedAdjustment(s: State, events: seq<Event>, target: u8)
    requires ConfigOk(s.config) && SteadyTarget(s, events, target)
    ensures Repeats(s, events, target)
  {
    if events == [] {
      assert Repeats(s, [], target);
    } else {
      SteadyBefore(s, events, target);
      assert AimsAt(Run(s, events[..|events| - 1]), events[|events| - 1], target);
      SteadyRunIsRepeatedAdjustment(s, events[..|events| - 1], target);
      RepeatsStep(s, events, target);
    }
  }

  lemma RepeatsStep(s: State, events: seq<Event>, target: u8)
    requires ConfigOk(s.config) && events != []
    requires AimsAt(Run(s, events[..|events| - 1]), events[|events| - 1], target)
    requires Repeats(s, events[..|events| - 1], target)
    ensures Repeats(s, events, target)
  {
    var n := |events| - 1;
    AimedRun(s, events, target);
    AdjustmentsStep(s, events);
    ReachesNext(s.config, s.quality, target, Adjustments(s, events[..n]), Run(s, events[..n]).quality,
                Adjusting(Run(s, events[..n]), events[n]), Adjustments(s, events), Run(s, events).quality);
  }

  lemma AimedRun(s: State, events: seq<Event>, target: u8)
    requires ConfigOk(s.config) && events != []
    requires AimsAt(Run(s, events[..|events| - 1]), events[|events| - 1], target)
    ensures Run(s, events).quality
         == QualityAfter(s.config, Run(s, events[..|events| - 1]).quality, target,
                         Adjusting(Run(s, events[..|events| - 1]), events[|events| - 1]))
  {
    AimedStep(Run(s, events[..|events| - 1]), events[|events| - 1], target);
  }

  lemma AdjustmentsStep(s: State, events: seq<Event>)
    requires ConfigOk(s.config) && events != []
    ensures Adjustments(s, events)
         == Adjustments(s, events[..|events| - 1])
            + (if Adjusting(Run(s, events[..|events| - 1]), events[|events| - 1]) then 1 else 0)
  {
  }

  lemma ReachesNext(c: Config, start: u8, target: u8, n: nat, q: u8, adjusting: bool, m: nat, r: u8)
    requires ConfigOk(c) && Reaches(c, start, target, n, q)
    requires m == n + (if adjusting then 1 else 0) && r == QualityAfter(c, q, target, adjusting)
    ensures Reaches(c, start, target, m, r)
  {
  }

  /** Convergence of the controller itself: while the measured throughput keeps the same target, the
      quality is at the goal exactly from the ceil(distance / step limit)-th adjustment on, whatever
      frames and ineffective calls lie between the adjustments. */
  lemma Converges(s: State, events: seq<Event>, target: u8)
    requires ConfigOk(s.config) && InRange(s.config, s.quality) && SteadyTarget(s, events, target)
    ensures var goal := Clamp(target, s.config.minQuality, s.config.maxQuality);
            Run(s, events).quality == goal
            <==> Adjustments(s, events) >= CeilDiv(Distance(s.quality, goal), s.config.maxChange)
  {
    var n := Adjustments(s, events);
    SteadyRunIsRepeatedAdjustment(s, events, target);
    ReachedIff(s.config, s.quality, target, n);
  }

  /** All events lie between `from` and `to`. */
  predicate Between(events: seq<Event>, from: nat, to: nat) {
    forall i :: 0 <= i < |events| ==> from <= events[i].at <= to
  }

  /** One step leaves quality and time alone, or is an adjustment. */
  lemma StepEffect(s: State, e: Event)
    requires ConfigOk(s.config) && InRange(s.config, s.quality)
    ensures var r := Step(s, e);
            && r.config == s.config && InRange(s.config, r.quality)
            && if Adjusting(s, e) then
                 && r.lastAdjustment == e.at >= s.lastAdjustment + s.config.intervalSecs * NANOS
                 && Distance(s.quality, r.quality) <= s.config.maxChange
               else r.lastAdjustment == s.lastAdjustment && r.quality == s.quality
  {
    if Adjusting(s, e) {
      var target := Target(Mbps(s.window, e.later), s.config.maxQuality);
      AdjustApproaches(s.config, s.quality, target);
      AdjustLandsInRange(s.config, s.quality, target);
      assert e.at >= s.lastAdjustment + s.config.intervalSecs * NANOS;
    }
  }

  /** Each adjustment moves the quality by at most the step limit. */
  lemma {:induction false} AdjustmentsMoveBySteps(s: State, events: seq<Event>)
    requires ConfigOk(s.config) && InRange(s.config, s.quality)
    ensures InRange(s.config, Run(s, events).quality)
    ensures Distance(s.quality, Run(s, events).quality) <= Adjustments(s, events) * s.config.maxChange
  {
    if events != [] {
      var n := |events| - 1;
      AdjustmentsMoveBySteps(s, events[..n]);
      StepEffect(Run(s, events[..n]), events[n]);
      NextMultiple(Adjustments(s, events[..n]), s.config.maxChange);
    }
  }

  /** `k` adjustments from a time on, the last of them at `last`. */
  predicate ApartUpTo(k: nat, from: nat, gap: nat, last: nat, to: nat) {
    k > 0 ==> from + (k - 1) * gap <= last <= to
  }

  lemma OneMoreApart(k: nat, from: nat, gap: nat, last: nat, to: nat, at: nat)
    requires ApartUpTo(k, from, gap, last, to) && from <= at <= to && at >= last + gap
    ensures ApartUpTo(k + 1, from, gap, at, to)
  {
    if k > 0 {
      NextMultiple(k - 1, gap);
    }
  }

  /** Any two adjustments of a run are at least an interval apart. */
  lemma {:induction false} AdjustmentsAreApart(s: State, events: seq<Event>, from: nat, to: nat)
    requires ConfigOk(s.config) && InRange(s.config, s.quality) && Between(events, from, to)
    ensures ApartUpTo(Adjustments(s, events), from, s.config.intervalSecs * NANOS, Run(s, events).lastAdjustment, to)
    ensures Adjustments(s, events) == 0 ==> Run(s, events).lastAdjustment == s.lastAdjustment
  {
    if events != [] {
      var n := |events| - 1;
      var t, gap := Run(s, events[..n]), s.config.intervalSecs * NANOS;
      AdjustmentsAreApart(s, events[..n], from, to);
      AdjustmentsMoveBySteps(s, events[..n]);
      StepEffect(t, events[n]);
      if events[n].Calculate? && Adjusts(t, events[n].at) {
        OneMoreApart(Adjustments(s, events[..n]), from, gap, t.lastAdjustment, to, events[n].at);
      }
    }
  }

  /** For every pattern of frames and calls the quality stays in its range, and in a stretch of time it
      changes by at most the step limit times one plus the intervals that fit into the stretch. */
  lemma Drift(s: State, events: seq<Event>, from: nat, to: nat)
    requires ConfigOk(s.config) && InRange(s.config, s.quality) && from <= to && Between(events, from, to)
    ensures InRange(s.config, Run(s, events).quality)
    ensures Distance(s.quality, Run(s, events).quality)
            <= (1 + (to - from) / (s.config.intervalSecs * NANOS)) * s.config.maxChange
  {
    var k: int, gap := Adjustments(s, events), s.config.intervalSecs * NANOS;
    AdjustmentsAreApart(s, events, from, to);
    AdjustmentsMoveBySteps(s, events);
    QuotientBound(to - from, gap, k - 1);
    FactorMonotone(k, 1 + (to - from) / gap, s.config.maxChange);
  }

  lemma FactorMonotone(a: int, b: int, m: nat)
    ensures a <= b ==> a * m <= b * m
  {
  }

  lemma QuotientBound(n: nat, d: nat, k: int)
    requires d > 0 && (k < 0 || k * d <= n)
    ensures k <= n / d
  {
    var q := n / d;
    assert n < (q + 1) * d;
    if k >= q + 1 {
      FactorMonotone(q + 1, k, d);
      assert false;
    }
  }
}
