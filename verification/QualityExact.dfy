/** The quality controller in numbers: the rate of given sends, the throughput that each quality needs, and which
    frames of a run are measured. */
module QualityExact {
  import opened Prelude
  import opened Quality

  // ------------------------------------------------------------------ the rate

  /** The rate of some bytes over a span of nanoseconds. */
  predicate IsRate(total: nat, span: int, rate: real) {
    if span < 1_000_000 then rate == 0.0 else rate * span as real == 8000.0 * total as real
  }

  /** In bits per second: eight times the bytes over the time since the oldest send. A span below a millisecond and
      fewer than two sends give no rate. */
  lemma RateExact(sends: seq<Send>, now: nat)
    ensures if |sends| < 2 then Mbps(sends, now) == 0.0
            else IsRate(TotalBytes(sends), now - sends[0].at, Mbps(sends, now))
  {
    if |sends| >= 2 {
      var span := Max(now - sends[0].at, 0);
      RateOver(TotalBytes(sends), span, span as real / NANOS as real, Mbps(sends, now));
    }
  }

  lemma RateOver(total: nat, span: int, seconds: real, rate: real)
    requires seconds == span as real / NANOS as real
    requires rate == if seconds < 0.001 then 0.0 else total as real * 8.0 / seconds / 1_000_000.0
    ensures IsRate(total, span, rate)
  {
    SpanIff(span, seconds);
    if span >= 1_000_000 {
      Rescale(total as real, span as real, seconds, rate);
    }
  }

  lemma SpanIff(span: int, seconds: real)
    requires seconds == span as real / 1_000_000_000.0
    ensures seconds < 0.001 <==> span < 1_000_000
  {
  }

  lemma Rescale(total: real, span: real, seconds: real, rate: real)
    requires seconds == span / 1_000_000_000.0 && seconds > 0.0
    requires rate == total * 8.0 / seconds / 1_000_000.0
    ensures rate * span == 8000.0 * total
  {
    var bits := total * 8.0 / seconds;
    Undo(total * 8.0, seconds, bits);
    assert rate == bits / 1_000_000.0;
    assert span == seconds * 1_000_000_000.0;
    Regroup(rate, bits, seconds, span);
  }

  lemma Undo(a: real, b: real, q: real)
    requires b != 0.0 && q == a / b
    ensures q * b == a
  {
  }

  lemma Regroup(rate: real, bits: real, seconds: real, span: real)
    requires bits == rate * 1_000_000.0 && span == seconds * 1_000_000_000.0
    ensures rate * span == bits * seconds * 1000.0
  {
    assert rate * span == (rate * seconds) * 1_000_000_000.0;
    assert bits * seconds == (rate * seconds) * 1_000_000.0;
  }

  /** Equal sends at equal distances. */
  function Evenly(start: nat, gap: nat, bytes: nat, n: nat): (sends: seq<Send>)
    ensures |sends| == n && (n > 0 ==> sends[0].at == start)
  {
    seq(n, (i: nat) => Send(start + i * gap, bytes))
  }

  lemma {:induction false} EvenTotal(start: nat, gap: nat, bytes: nat, n: nat)
    ensures TotalBytes(Evenly(start, gap, bytes, n)) == n * bytes
  {
    if n > 0 {
      EvenTotal(start, gap, bytes, n - 1);
      assert Evenly(start, gap, bytes, n)[..n - 1] == Evenly(start, gap, bytes, n - 1);
      Distribute(n - 1, bytes);
    }
  }

  lemma Distribute(k: nat, b: nat)
    ensures (k + 1) * b == k * b + b
  {
  }

  /** Of equal sends at equal distances the rate is that of one send per distance, however many there are. */
  lemma EvenRate(start: nat, gap: nat, bytes: nat, n: nat)
    requires n >= 2 && n * gap >= 1_000_000
    ensures Mbps(Evenly(start, gap, bytes, n), start + n * gap) * gap as real == 8000.0 * bytes as real
  {
    var sends := Evenly(start, gap, bytes, n);
    RateExact(sends, start + n * gap);
    EvenTotal(start, gap, bytes, n);
    CancelFactor(n, gap, bytes, Mbps(sends, start + n * gap));
  }

  lemma CancelFactor(n: nat, gap: nat, bytes: nat, rate: real)
    requires n > 0 && rate * (n * gap) as real == 8000.0 * (n * bytes) as real
    ensures rate * gap as real == 8000.0 * bytes as real
  {
    var m, g, b := n as real, gap as real, bytes as real;
    assert (n * gap) as real == m * g && (n * bytes) as real == m * b;
    assert m * (rate * g) == rate * (m * g);
    assert m * (8000.0 * b) == 8000.0 * (m * b);
    SameFactor(m, rate * g, 8000.0 * b);
  }

  lemma SameFactor(m: real, x: real, y: real)
    requires m != 0.0 && m * x == m * y
    ensures x == y
  {
    assert m * (x - y) == 0.0;
  }

  // ------------------------------------------------------------------ the quality that a throughput allows

  /** The least throughput for a quality: linear between the bands. */
  predicate Suffices(mbps: real, q: nat, maxQuality: u8) {
    if q <= 10 then true
    else if q <= 20 then mbps * 100.0 >= (q - 10) as real
    else if q <= 50 then (mbps - 0.1) * 100.0 >= 3.0 * (q - 20) as real
    else (mbps - 1.0) * (maxQuality - 50) as real >= 9.0 * (q - 50) as real
  }

  lemma PartIff(fraction: real, k: nat, j: int)
    requires 0.0 <= fraction <= 1.0 && k <= 255
    ensures Part(fraction, k) >= j <==> j <= 0 || fraction * k as real >= j as real
  {
    PartMonotone(fraction, fraction, k);
    FloorIff(Scaled(fraction, k as real), j);
    ScaledMonotone(fraction, 1.0, k as real);
  }

  lemma FloorIff(r: real, j: int)
    ensures r.Floor >= j <==> r >= j as real
  {
  }

  lemma FractionTimes(x: real, full: real, k: real, j: real)
    requires full > 0.0
    ensures x / full * k >= j <==> x * k >= j * full
  {
    var f := x / full;
    assert f * full == x;
    assert (f * k) * full == x * k;
    SameSide(f * k, j, full);
  }

  lemma SameSide(a: real, b: real, full: real)
    requires full > 0.0
    ensures a >= b <==> a * full >= b * full
  {
    if a >= b {
      NotNegative(a - b, full);
      assert (a - b) * full == a * full - b * full;
    } else {
      assert (b - a) * full > 0.0;
      assert (b - a) * full == b * full - a * full;
    }
  }

  lemma BandIff(base: nat, x: real, full: real, k: nat, q: nat, fraction: real)
    requires 0.0 <= x < full && k <= 100 && base <= 50 && fraction == x / full
    ensures WrapU8(base + Part(fraction, k)) >= q <==> q <= base || x * k as real >= (q - base) as real * full
  {
    DivisionMonotone(x, x, full);
    PartMonotone(fraction, fraction, k);
    NoWrap(base + Part(fraction, k));
    PartIff(fraction, k, q - base);
    FractionTimes(x, full, k as real, (q - base) as real);
  }

  lemma EmergencyBand(mbps: real, q: nat, target: u8)
    requires 0.0 <= mbps < 0.1 && target == WrapU8(10 + Part(mbps / 0.1, 10))
    ensures target >= q <==> q <= 10 || mbps * 100.0 >= (q - 10) as real
  {
    BandIff(10, mbps, 0.1, 10, q, mbps / 0.1);
  }

  lemma ReducedBand(mbps: real, q: nat, target: u8)
    requires 0.1 <= mbps < 1.0 && target == WrapU8(20 + Part((mbps - 0.1) / 0.9, 30))
    ensures target >= q <==> q <= 20 || (mbps - 0.1) * 100.0 >= 3.0 * (q - 20) as real
  {
    BandIff(20, mbps - 0.1, 0.9, 30, q, (mbps - 0.1) / 0.9);
  }

  lemma BelowOne(mbps: real, maxQuality: u8, q: nat)
    requires mbps < 1.0 && 50 < q <= maxQuality
    ensures !Suffices(mbps, q, maxQuality)
  {
    var k := (maxQuality - 50) as real;
    NotNegative(1.0 - mbps, k);
    assert (mbps - 1.0) * k == -((1.0 - mbps) * k);
  }

  lemma LowBands(mbps: real, maxQuality: u8, q: nat, target: u8)
    requires 0.0 <= mbps < 1.0 && q <= maxQuality && target == Target(mbps, maxQuality)
    ensures target >= q <==> Suffices(mbps, q, maxQuality)
  {
    if q > 50 {
      BelowOne(mbps, maxQuality, q);
    }
    if mbps < 0.1 {
      EmergencyBand(mbps, q, target);
    } else {
      ReducedBand(mbps, q, target);
    }
  }

  lemma AboveTen(mbps: real, k: real)
    requires mbps >= 10.0 && k >= 0.0
    ensures (mbps - 1.0) * k >= 9.0 * k
  {
    NotNegative(mbps - 10.0, k);
    assert (mbps - 1.0) * k == (mbps - 10.0) * k + 9.0 * k;
  }

  lemma ScaledBand(mbps: real, k: nat, q: nat, target: u8)
    requires 1.0 <= mbps < 10.0 && k <= 50 && target == WrapU8(50 + Part((mbps - 1.0) / 9.0, k))
    ensures target >= q <==> q <= 50 || (mbps - 1.0) * k as real >= 9.0 * (q - 50) as real
  {
    BandIff(50, mbps - 1.0, 9.0, k, q, (mbps - 1.0) / 9.0);
  }

  lemma EnoughForFifty(mbps: real, maxQuality: u8, q: nat)
    requires mbps >= 1.0 && q <= 50
    ensures Suffices(mbps, q, maxQuality)
  {
  }

  lemma AtLeastScaled(mbps: real, k: real, j: real, scaled: real)
    requires mbps >= 10.0 && k >= j && k >= 0.0 && scaled == (mbps - 1.0) * k
    ensures scaled >= 9.0 * j
  {
    AboveTen(mbps, k);
  }

  lemma EnoughForAll(mbps: real, maxQuality: u8, q: nat)
    requires mbps >= 10.0 && 50 < q <= maxQuality
    ensures Suffices(mbps, q, maxQuality)
  {
    var k := (maxQuality - 50) as real;
    AtLeastScaled(mbps, k, (q - 50) as real, (mbps - 1.0) * k);
  }

  lemma HighBands(mbps: real, maxQuality: u8, q: nat)
    requires mbps >= 1.0 && 50 <= maxQuality <= 100 && q <= maxQuality
    ensures Target(mbps, maxQuality) >= q <==> Suffices(mbps, q, maxQuality)
  {
    if q <= 50 {
      EnoughForFifty(mbps, maxQuality, q);
    } else if mbps >= 10.0 {
      EnoughForAll(mbps, maxQuality, q);
    }
    if mbps < 10.0 {
      NoWrap(maxQuality - 50);
      ScaledBand(mbps, maxQuality - 50, q, Target(mbps, maxQuality));
    }
  }

  /** For a maximum of 50 or more, the target is at least `q` exactly when the throughput suffices for it. So every
      value of the target is told, and between the bands it is linear. */
  lemma TargetIff(mbps: real, maxQuality: u8, q: nat)
    requires mbps >= 0.0 && 50 <= maxQuality <= 100 && q <= maxQuality
    ensures Target(mbps, maxQuality) >= q <==> Suffices(mbps, q, maxQuality)
  {
    if mbps < 1.0 {
      LowBands(mbps, maxQuality, q, Target(mbps, maxQuality));
    } else {
      HighBands(mbps, maxQuality, q);
    }
  }

  /** Below a maximum of 50 the third band starts at 50 and runs through the wrap-around of a byte to the maximum: `k`
      is the part of those steps that the throughput has covered, rounded down. */
  lemma TargetWraps(mbps: real, maxQuality: u8) returns (k: nat)
    requires 1.0 <= mbps < 10.0 && maxQuality < 50
    ensures Target(mbps, maxQuality) == if 50 + k < 256 then 50 + k else 50 + k - 256
    ensures k <= 206 + maxQuality
    ensures 9.0 * k as real <= (mbps - 1.0) * (206 + maxQuality) as real < 9.0 * (k + 1) as real
  {
    var n := 206 + maxQuality;
    var fraction := (mbps - 1.0) / 9.0;
    WrapOnce(maxQuality - 50);
    DivisionMonotone(mbps - 1.0, mbps - 1.0, 9.0);
    PartMonotone(fraction, fraction, n);
    k := Part(fraction, n);
    WrapOnce(50 + k);
    PartIff(fraction, n, k);
    PartIff(fraction, n, k + 1);
    FractionTimes(mbps - 1.0, 9.0, n as real, k as real);
    FractionTimes(mbps - 1.0, 9.0, n as real, (k + 1) as real);
    if k == 0 {
      NotNegative(mbps - 1.0, n as real);
    }
  }

  /** From any quality, also one out of the range: the value nearest to the target that a step can reach, and of the
      range the one nearest to that. */
  lemma AdjustIsNearest(c: Config, q: u8, target: u8, moved: int)
    requires ConfigOk(c) && Distance(q, moved) <= c.maxChange
    requires forall n :: 0 <= Distance(q, n) <= c.maxChange ==> Distance(target, moved) <= Distance(target, n)
    ensures moved <= c.minQuality ==> Adjust(c, q, target) == c.minQuality
    ensures c.minQuality <= moved <= c.maxQuality ==> Adjust(c, q, target) == moved
    ensures moved >= c.maxQuality ==> Adjust(c, q, target) == c.maxQuality
  {
    var nearest := if target > q then Min(q + c.maxChange, target) else Max(q - c.maxChange, target);
    assert Distance(q, nearest) <= c.maxChange;
    assert moved == nearest;
  }

  // ------------------------------------------------------------------ what a run measures

  function Frames(events: seq<Event>): seq<Send> {
    if events == [] then []
    else
      var e := events[|events| - 1];
      Frames(events[..|events| - 1]) + (if e.Frame? then [Send(e.at, e.bytes)] else [])
  }

  /** The last ten. */
  predicate AreLastTen(window: seq<Send>, sends: seq<Send>) {
    window == if |sends| > 10 then sends[|sends| - 10..] else sends
  }

  lemma OneMoreFrame(window: seq<Send>, sends: seq<Send>, s: Send)
    requires AreLastTen(window, sends)
    ensures AreLastTen(LastN(window + [s], 10), sends + [s])
  {
  }

  /** The controller measures exactly the last ten frames. */
  lemma {:induction false} WindowIsLastFrames(s: State, events: seq<Event>)
    requires ConfigOk(s.config) && s.window == []
    ensures AreLastTen(Run(s, events).window, Frames(events))
  {
    if events != [] {
      var n := |events| - 1;
      WindowIsLastFrames(s, events[..n]);
      if events[n].Frame? {
        OneMoreFrame(Run(s, events[..n]).window, Frames(events[..n]), Send(events[n].at, events[n].bytes));
      } else {
        assert Frames(events) == Frames(events[..n]) + [];
      }
    }
  }

  /** A call adjusts the quality exactly when the interval has passed since the last adjustment, in nanoseconds, and at
      least two frames were sent in the run. */
  lemma AdjustsIff(s: State, events: seq<Event>, now: nat)
    requires ConfigOk(s.config) && s.window == []
    ensures Adjusts(Run(s, events), now)
       <==> && now - Run(s, events).lastAdjustment >= s.config.intervalSecs * 1_000_000_000
            && |Frames(events)| >= 2
  {
    var elapsed := now - Run(s, events).lastAdjustment;
    WindowIsLastFrames(s, events);
    WholeSeconds(Max(elapsed, 0), s.config.intervalSecs);
  }

  lemma WholeSeconds(elapsed: nat, secs: nat)
    ensures elapsed / 1_000_000_000 >= secs <==> elapsed >= secs * 1_000_000_000
  {
  }
}
