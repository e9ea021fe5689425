/**
 Drag detection from mouse events and graphics updates.

 The detector is a timed state machine over a pruned and capped queue of timestamps. Here it is run
 over whole event traces, and what it answers is told from the trace alone.
 */
module DragDetector {
  import opened Prelude

  const DRAG_THRESHOLD_PX := 5
  const REQUIRED_LARGE_UPDATES := 3
  const UPDATE_WINDOW_MS := 500
  const LARGE_UPDATE_COVERAGE_PCT := 80
  const MAX_UPDATE_HISTORY := 16

  type byteMask = m: int | 0 <= m < 256

  /** Times are in nanoseconds; only graphics updates read the clock. */
  datatype Event =
    | Mouse(x: int32, y: int32, mask: byteMask)
    | Graphics(width: uint32, height: uint32, now: nat)
    | Resize(screenWidth: uint32, screenHeight: uint32)
    | Reset

  datatype Phase = Idle | Tracking | Dragging

  datatype State = State(
    phase: Phase, buttonDown: bool, lastX: int32, lastY: int32, downX: int32, downY: int32,
    prevX: int32, prevY: int32, stamps: seq<nat>, width: uint32, height: uint32, justEnded: bool)

  // ------------------------------------------------------------------ machine arithmetic

  /** `i32` arithmetic of a release build. */
  function Wrap32(i: int): int32 {
    (i + 0x8000_0000) % 0x1_0000_0000 - 0x8000_0000
  }

  /** `(a - b).abs()`; the absolute value of the least `i32` is itself. */
  function AbsDiff(a: int32, b: int32): int32 {
    var d: int := Wrap32(a - b);
    if d < 0 then Wrap32(-d) else d
  }

  predicate Far(x: int32, y: int32, downX: int32, downY: int32) {
    AbsDiff(x, downX) > DRAG_THRESHOLD_PX || AbsDiff(y, downY) > DRAG_THRESHOLD_PX
  }

  /** Any of the three main buttons. */
  predicate MainButton(mask: byteMask) {
    mask % 8 != 0
  }

  /** At least 80 per cent of the screen, in the 64-bit arithmetic and 32-bit cast of the code. */
  predicate Large(width: uint32, height: uint32, screenWidth: uint32, screenHeight: uint32) {
    var screen := screenWidth * screenHeight;
    screen != 0 && (width * height * 100) % 0x1_0000_0000_0000_0000 / screen % 0x1_0000_0000 >= LARGE_UPDATE_COVERAGE_PCT
  }

  /** Not older than the window, in whole milliseconds. */
  predicate Within(now: nat, t: nat) {
    (now as int - t) / 1_000_000 <= UPDATE_WINDOW_MS
  }

  /** A coordinate counts as moved exactly when it is more than 5 away from the press, short of the
      distances where 32-bit arithmetic wraps. */
  lemma MovedIff(a: int32, b: int32)
    ensures var d := if a >= b then (a as int) - b else (b as int) - a;
            AbsDiff(a, b) > DRAG_THRESHOLD_PX <==> 5 < d < 0x1_0000_0000 - 5 && d != 0x8000_0000
  {
  }

  /** The wrapped value is the only one of the type that differs by a multiple of its size. */
  lemma WrapIff(i: int, w: int32)
    ensures w == Wrap32(i) <==> (i - w) % 0x1_0000_0000 == 0
  {
    var m := i + 0x8000_0000;
    assert m == m / 0x1_0000_0000 * 0x1_0000_0000 + m % 0x1_0000_0000;
  }

  /** A button is down exactly when one of the three lowest bits of the mask is set. */
  lemma MainButtonIff(mask: byteMask)
    ensures MainButton(mask) <==> mask % 2 == 1 || mask / 2 % 2 == 1 || mask / 4 % 2 == 1
  {
  }

  /** The test of the source, in the bits of a byte. */
  lemma MainButtonBits(mask: bv8)
    ensures MainButton(mask as int) <==> mask & 7 != 0
  {
    assert mask & 7 == mask % 8;
  }

  /** Whole milliseconds are counted: an update is in the window until 501 milliseconds have passed. */
  lemma WithinIff(now: nat, t: nat)
    ensures Within(now, t) <==> now - t < 501_000_000
  {
  }

  /** Short of overflow, an update counts as large exactly when it covers 80 per cent. */
  lemma LargeIff(width: uint32, height: uint32, screenWidth: uint32, screenHeight: uint32)
    requires width * height * 100 < 0x1_0000_0000_0000_0000
    requires screenWidth * screenHeight == 0 || width * height * 100 < 0x1_0000_0000 * (screenWidth * screenHeight)
    ensures Large(width, height, screenWidth, screenHeight)
            <==> screenWidth * screenHeight != 0 && width * height * 100 >= 80 * (screenWidth * screenHeight)
  {
    var n, screen := width * height * 100, screenWidth * screenHeight;
    if screen != 0 {
      QuotientAtLeast(n, screen, 80);
      QuotientAtLeast(n, screen, 0x1_0000_0000);
      ModSmall(n, 0x1_0000_0000_0000_0000);
      ModSmall(n / screen, 0x1_0000_0000);
    }
  }

  lemma QuotientAtLeast(n: nat, d: nat, k: nat)
    requires d > 0
    ensures n / d >= k <==> n >= k * d
  {
    var q := n / d;
    assert q * d <= n < q * d + d;
    if q >= k {
      assert q * d >= k * d;
    } else {
      assert (q + 1) * d <= k * d;
    }
  }

  lemma ModSmall(n: nat, m: nat)
    requires n < m
    ensures n % m == n
  {
  }

  // ------------------------------------------------------------------ one step

  /** The queue without the leading entries that are too old. */
  function DropOld(stamps: seq<nat>, now: nat): seq<nat> {
    if stamps != [] && !Within(now, stamps[0]) then DropOld(stamps[1..], now) else stamps
  }

  function AfterMouse(s: State, x: int32, y: int32, mask: byteMask): State {
    var isDown := MainButton(mask);
    var m := s.(justEnded := false, prevX := s.lastX, prevY := s.lastY, lastX := x, lastY := y);
    if isDown && !s.buttonDown then
      m.(buttonDown := true, downX := x, downY := y, prevX := x, prevY := y)
    else if !isDown && s.buttonDown then
      m.(buttonDown := false, justEnded := s.phase == Dragging, phase := Idle, stamps := [])
    else if isDown && s.phase == Idle && Far(x, y, s.downX, s.downY) then
      m.(phase := Tracking)
    else
      m
  }

  function AfterGraphics(s: State, width: uint32, height: uint32, now: nat): State {
    if !s.buttonDown || !Large(width, height, s.width, s.height) then s
    else
      var stamps := LastN(DropOld(s.stamps, now) + [now], MAX_UPDATE_HISTORY);
      var phase := if s.phase == Tracking && |stamps| >= REQUIRED_LARGE_UPDATES then Dragging else s.phase;
      s.(stamps := stamps, phase := phase)
  }

  function Step(s: State, e: Event): State {
    match e
    case Mouse(x, y, mask) => AfterMouse(s, x, y, mask)
    case Graphics(width, height, now) => AfterGraphics(s, width, height, now)
    case Resize(w, h) => s.(width := w, height := h, phase := Idle, stamps := [])
    case Reset => s.(phase := Idle, buttonDown := false, stamps := [], justEnded := false)
  }

  function Delta(s: State): (int32, int32) {
    (Wrap32(s.lastX - s.prevX), Wrap32(s.lastY - s.prevY))
  }

  function NewState(width: uint32, height: uint32): State {
    State(Idle, false, 0, 0, 0, 0, 0, 0, [], width, height, false)
  }

  class DragDetector {
    var phase: Phase
    var buttonDown: bool
    var lastX: int32
    var lastY: int32
    var downX: int32
    var downY: int32
    var prevX: int32
    var prevY: int32
    var stamps: seq<nat>
    var screenWidth: uint32
    var screenHeight: uint32
    var justEnded: bool

    ghost function Now(): State
      reads this
    {
      State(phase, buttonDown, lastX, lastY, downX, downY, prevX, prevY, stamps, screenWidth, screenHeight, justEnded)
    }

    constructor (width: uint32, height: uint32)
      ensures Now() == NewState(width, height)
    {
      phase, buttonDown, stamps, justEnded := Idle, false, [], false;
      lastX, lastY, downX, downY, prevX, prevY := 0, 0, 0, 0, 0, 0;
      screenWidth, screenHeight := width, height;
    }

    method NotifyMouseEvent(x: int32, y: int32, mask: byteMask)
      modifies this
      ensures Now() == Step(old(Now()), Mouse(x, y, mask))
    {
      justEnded := false;
      var wasDown := buttonDown;
      var isDown := MainButton(mask);
      prevX, prevY := lastX, lastY;
      lastX, lastY := x, y;
      if isDown && !wasDown {
        buttonDown := true;
        downX, downY := x, y;
        prevX, prevY := x, y;
      } else if !isDown && wasDown {
        buttonDown := false;
        if phase == Dragging {
          justEnded := true;
        }
        phase := Idle;
        stamps := [];
      } else if isDown {
        buttonDown := true;
        if phase == Idle && Far(x, y, downX, downY) {
          phase := Tracking;
        }
      }
    }

    method NotifyGraphicsUpdate(width: uint32, height: uint32, now: nat)
      modifies this
      ensures Now() == Step(old(Now()), Graphics(width, height, now))
    {
      if !buttonDown || !Large(width, height, screenWidth, screenHeight) {
        return;
      }
      PruneStamps(now);
      stamps := stamps + [now];
      CapStamps();
      if phase == Tracking && |stamps| >= REQUIRED_LARGE_UPDATES {
        phase := Dragging;
      }
    }

    method PruneStamps(now: nat)
      modifies this`stamps
      ensures stamps == DropOld(old(stamps), now)
    {
      while stamps != [] && !Within(now, stamps[0])
        invariant DropOld(stamps, now) == DropOld(old(stamps), now)
        decreases |stamps|
      {
        stamps := stamps[1..];
      }
    }

    method CapStamps()
      modifies this`stamps
      ensures stamps == LastN(old(stamps), MAX_UPDATE_HISTORY)
    {
      while |stamps| > MAX_UPDATE_HISTORY
        invariant LastN(stamps, MAX_UPDATE_HISTORY) == LastN(old(stamps), MAX_UPDATE_HISTORY)
        decreases |stamps|
      {
        stamps := stamps[1..];
      }
    }

    /** The mouse displacement since the previous mouse event. */
    method DragDelta() returns (dx: int32, dy: int32)
      ensures (dx, dy) == Delta(Now())
    {
      dx, dy := Wrap32(lastX - prevX), Wrap32(lastY - prevY);
    }

    method Resize(width: uint32, height: uint32)
      modifies this
      ensures Now() == Step(old(Now()), Event.Resize(width, height))
    {
      screenWidth, screenHeight, phase, stamps := width, height, Idle, [];
    }

    method Reset()
      modifies this
      ensures Now() == Step(old(Now()), Event.Reset)
    {
      phase, buttonDown, stamps, justEnded := Idle, false, [], false;
    }
  }

  // ------------------------------------------------------------------ whole runs

  function Run(init: State, tr: seq<Event>): State {
    if tr == [] then init else Step(Run(init, tr[..|tr| - 1]), tr[|tr| - 1])
  }

  /** The clock never goes back. */
  predicate ClockOk(tr: seq<Event>) {
    forall i, j :: 0 <= i < j < |tr| && tr[i].Graphics? && tr[j].Graphics? ==> tr[i].now <= tr[j].now
  }

  predicate IsDown(e: Event) {
    e.Mouse? && MainButton(e.mask)
  }

  /** The events after which no button is held. */
  predicate Lifts(e: Event) {
    e.Reset? || (e.Mouse? && !MainButton(e.mask))
  }

  /** Event `p` pressed the button that is held at the end of the trace. */
  ghost predicate IsPress(tr: seq<Event>, p: nat) {
    && p < |tr| && IsDown(tr[p])
    && (forall k :: p < k < |tr| ==> !Lifts(tr[k]))
    && (forall k :: 0 <= k < p && IsDown(tr[k]) ==> exists l :: k < l < p && Lifts(tr[l]))
  }

  /** Counting starts at the press, or at the last resize after it. */
  ghost predicate IsStart(tr: seq<Event>, p: nat, s: nat) {
    && p <= s < |tr| && (s == p || tr[s].Resize?)
    && (forall k :: s < k < |tr| ==> !tr[k].Resize?)
  }

  /** The screen size after `tr`. */
  function Screen(width: uint32, height: uint32, tr: seq<Event>): (uint32, uint32) {
    if tr == [] then (width, height)
    else
      var e := tr[|tr| - 1];
      if e.Resize? then (e.screenWidth, e.screenHeight) else Screen(width, height, tr[..|tr| - 1])
  }

  predicate LargeAt(width: uint32, height: uint32, tr: seq<Event>, i: nat)
    requires i < |tr|
  {
    var (w, h) := Screen(width, height, tr[..i]);
    tr[i].Graphics? && Large(tr[i].width, tr[i].height, w, h)
  }

  /** How many of the events after `s` and before `n` are large updates within the window of `now`. */
  function CountLarge(width: uint32, height: uint32, tr: seq<Event>, s: nat, n: nat, now: nat): nat
    requires n <= |tr|
  {
    if n <= s + 1 then 0
    else
      CountLarge(width, height, tr, s, n - 1, now)
      + (if LargeAt(width, height, tr, n - 1) && Within(now, tr[n - 1].now) then 1 else 0)
  }

  /** Event `m` moved the held mouse more than the threshold away from the press. */
  predicate MovesFar(tr: seq<Event>, p: nat, m: nat)
    requires p < |tr| && m < |tr|
  {
    IsDown(tr[m]) && IsDown(tr[p]) && Far(tr[m].x, tr[m].y, tr[p].x, tr[p].y)
  }

  /** Event `u` is a large update and at least the third one, since `s`, within the window. */
  predicate ThirdLarge(width: uint32, height: uint32, tr: seq<Event>, s: nat, u: nat)
    requires u < |tr|
  {
    LargeAt(width, height, tr, u)
    && CountLarge(width, height, tr, s, u + 1, tr[u].now) >= 3
  }

  ghost predicate HasMove(tr: seq<Event>, p: nat, s: nat)
    requires p < |tr|
  {
    exists m :: s < m < |tr| && MovesFar(tr, p, m)
  }

  ghost predicate DragFrom(width: uint32, height: uint32, tr: seq<Event>, p: nat, s: nat, m: nat, u: nat)
    requires p < |tr|
  {
    s < m < u < |tr| && MovesFar(tr, p, m) && ThirdLarge(width, height, tr, s, u)
  }

  ghost predicate HasDrag(width: uint32, height: uint32, tr: seq<Event>, p: nat, s: nat)
    requires p < |tr|
  {
    exists m, u :: DragFrom(width, height, tr, p, s, m, u)
  }

  /** The trace, and nothing but the trace, says that a drag is going on. */
  ghost predicate DragGoesOn(width: uint32, height: uint32, tr: seq<Event>) {
    exists p, s :: IsPress(tr, p) && IsStart(tr, p, s) && HasDrag(width, height, tr, p, s)
  }

  // ------------------------------------------------------------------ press and start, by position

  function PressOf(tr: seq<Event>): (p: int)
    ensures -1 <= p < |tr|
  {
    if tr == [] then -1
    else
      var q, e := PressOf(tr[..|tr| - 1]), tr[|tr| - 1];
      if Lifts(e) then -1 else if IsDown(e) && q == -1 then |tr| - 1 else q
  }

  function StartOf(tr: seq<Event>): (s: int)
    ensures PressOf(tr) <= s < |tr| || PressOf(tr) == -1
    ensures s == -1 <==> PressOf(tr) == -1
    ensures -1 <= s < |tr|
  {
    if PressOf(tr) == -1 then -1
    else if tr[|tr| - 1].Resize? || PressOf(tr) == |tr| - 1 then |tr| - 1
    else StartOf(tr[..|tr| - 1])
  }

  /** Without a held button, every press so far was lifted again. */
  ghost predicate AllLifted(tr: seq<Event>) {
    forall k :: 0 <= k < |tr| && IsDown(tr[k]) ==> exists l :: k < l < |tr| && Lifts(tr[l])
  }

  lemma {:induction false} PressOfIsPress(tr: seq<Event>)
    ensures PressOf(tr) == -1 ==> AllLifted(tr)
    ensures PressOf(tr) >= 0 ==> IsPress(tr, PressOf(tr))
  {
    if tr != [] {
      var n := |tr| - 1;
      var q := PressOf(tr[..n]);
      PressOfIsPress(tr[..n]);
      if PressOf(tr) == n {
        assert AllLifted(tr[..n]);
        forall k | 0 <= k < n && IsDown(tr[k])
          ensures exists l :: k < l < n && Lifts(tr[l])
        {
          assert IsDown(tr[..n][k]);
          var l :| k < l < n && Lifts(tr[..n][l]);
          assert Lifts(tr[l]);
        }
      } else if PressOf(tr) == -1 && !Lifts(tr[n]) {
        assert AllLifted(tr[..n]);
        forall k | 0 <= k < |tr| && IsDown(tr[k])
          ensures exists l :: k < l < |tr| && Lifts(tr[l])
        {
          assert IsDown(tr[..n][k]);
          var l :| k < l < n && Lifts(tr[..n][l]);
          assert Lifts(tr[l]);
        }
      } else if PressOf(tr) >= 0 {
        forall k | 0 <= k < q && IsDown(tr[k])
          ensures exists l :: k < l < q && Lifts(tr[l])
        {
          assert IsDown(tr[..n][k]);
          var l :| k < l < q && Lifts(tr[..n][l]);
          assert Lifts(tr[l]);
        }
      }
    }
  }

  /** There is at most one press and one start, so the positions found are the ones meant. */
  lemma PressUnique(tr: seq<Event>, p: nat, s: nat)
    requires IsPress(tr, p) && IsStart(tr, p, s)
    ensures PressOf(tr) == p && StartOf(tr) == s
  {
    var q := PressOf(tr);
    PressOfIsPress(tr);
    if q >= 0 {
      StartOfIsStart(tr);
    }
  }

  lemma {:induction false} StartOfIsStart(tr: seq<Event>)
    requires PressOf(tr) >= 0
    ensures IsStart(tr, PressOf(tr), StartOf(tr))
  {
    var n := |tr| - 1;
    if !tr[n].Resize? && PressOf(tr) != n {
      StartOfIsStart(tr[..n]);
    }
  }

  // ------------------------------------------------------------------ the queue and the full history

  /** The times of the large updates after event `s`. */
  function LargeTimes(width: uint32, height: uint32, tr: seq<Event>, s: nat): seq<nat> {
    if |tr| <= s + 1 then []
    else
      var n := |tr| - 1;
      var ts := LargeTimes(width, height, tr[..n], s);
      if LargeAt(width, height, tr, n) then ts + [tr[n].now] else ts
  }

  predicate Nondecreasing(ts: seq<nat>) {
    forall i, j :: 0 <= i < j < |ts| ==> ts[i] <= ts[j]
  }

  /** The queue as the full history tells it: the last 16 of the times within the window of the newest. */
  function Window(ts: seq<nat>): seq<nat> {
    if ts == [] then [] else LastN(DropOld(ts, ts[|ts| - 1]), 16)
  }

  /** Pruning from the front keeps exactly the times within the window. */
  lemma {:induction false} DropOldIsSuffix(ts: seq<nat>, now: nat) returns (k: nat)
    requires Nondecreasing(ts)
    ensures k <= |ts| && DropOld(ts, now) == ts[k..]
    ensures forall i :: 0 <= i < |ts| ==> (Within(now, ts[i]) <==> k <= i)
  {
    if ts != [] && !Within(now, ts[0]) {
      var j := DropOldIsSuffix(ts[1..], now);
      k := j + 1;
      assert ts[1..][j..] == ts[k..];
      forall i | 0 <= i < |ts| ensures Within(now, ts[i]) <==> k <= i {
        if i > 0 { assert ts[1..][i - 1] == ts[i]; }
      }
    } else {
      k := 0;
      forall i | 0 <= i < |ts| ensures Within(now, ts[i]) {
        WithinMonotone(now, ts[0], ts[i]);
      }
    }
  }

  lemma WithinMonotone(now: nat, a: nat, b: nat)
    ensures a <= b && Within(now, a) ==> Within(now, b)
    ensures a <= b && Within(b, now) ==> Within(a, now)
  {
  }

  /** Times in order, up to now. */
  predicate NoneLater(ts: seq<nat>, now: nat) {
    Nondecreasing(ts) && forall i :: 0 <= i < |ts| ==> ts[i] <= now
  }

  lemma NondecreasingParts(ts: seq<nat>, now: nat)
    requires Nondecreasing(ts + [now])
    ensures NoneLater(ts, now)
  {
    var all := ts + [now];
    assert forall i :: 0 <= i < |ts| ==> all[i] == ts[i];
    assert all[|ts|] == now;
  }

  /** Pruning the window of the history is the window of the pruned history. */
  lemma PruneWindow(ts: seq<nat>, now: nat) returns (k: nat)
    requires NoneLater(ts, now)
    ensures k <= |ts| && DropOld(ts, now) == ts[k..]
    ensures DropOld(Window(ts), now) == ts[Max(k, |ts| - MAX_UPDATE_HISTORY)..]
  {
    k := DropOldIsSuffix(ts, now);
    if ts != [] {
      var k0, from := WindowIsSuffix(ts);
      NondecreasingTail(ts, from);
      var k2 := DropOldIsSuffix(ts[from..], now);
      SuffixOfSuffix(ts, from, k, k2, now);
      if k < |ts| {
        assert Within(ts[|ts| - 1], ts[k]);
      }
    }
  }

  lemma WindowIsSuffix(ts: seq<nat>) returns (k: nat, from: nat)
    requires Nondecreasing(ts) && ts != []
    ensures k <= |ts| && forall i :: 0 <= i < |ts| ==> (Within(ts[|ts| - 1], ts[i]) <==> k <= i)
    ensures from == Max(k, |ts| - MAX_UPDATE_HISTORY) && from <= |ts| && Window(ts) == ts[from..]
  {
    k := DropOldIsSuffix(ts, ts[|ts| - 1]);
    from := Max(k, |ts| - MAX_UPDATE_HISTORY);
    LastOfSuffix(ts, k, MAX_UPDATE_HISTORY);
  }

  lemma LastOfSuffix(ts: seq<nat>, k: nat, n: nat)
    ensures k <= |ts| ==> LastN(ts[k..], n) == ts[Max(k, |ts| - n)..]
  {
  }

  lemma NondecreasingTail(ts: seq<nat>, from: nat)
    ensures Nondecreasing(ts) && from <= |ts| ==> Nondecreasing(ts[from..])
  {
  }

  lemma {:induction false} DropOldSnoc(ts: seq<nat>, now: nat)
    ensures DropOld(ts + [now], now) == DropOld(ts, now) + [now]
  {
    if ts == [] {
      assert ts + [now] == [now];
    } else {
      assert (ts + [now])[1..] == ts[1..] + [now];
      DropOldSnoc(ts[1..], now);
    }
  }

  /** One more update: prune, append and cap keep the queue equal to the window of the history. */
  lemma WindowStep(ts: seq<nat>, now: nat)
    requires NoneLater(ts, now)
    ensures LastN(DropOld(Window(ts), now) + [now], MAX_UPDATE_HISTORY) == Window(ts + [now])
  {
    var k := PruneWindow(ts, now);
    WindowSnoc(ts, now);
    PrunedSuffixes(ts, now, k, DropOld(Window(ts), now), DropOld(ts, now));
  }

  lemma PrunedSuffixes(ts: seq<nat>, now: nat, k: nat, queue: seq<nat>, pruned: seq<nat>)
    requires k <= |ts| && pruned == ts[k..] && queue == ts[Max(k, |ts| - MAX_UPDATE_HISTORY)..]
    ensures LastN(queue + [now], MAX_UPDATE_HISTORY) == LastN(pruned + [now], MAX_UPDATE_HISTORY)
  {
    CapOfSuffix(ts, now, k);
  }

  lemma WindowSnoc(ts: seq<nat>, now: nat)
    ensures Window(ts + [now]) == LastN(DropOld(ts, now) + [now], MAX_UPDATE_HISTORY)
  {
    DropOldSnoc(ts, now);
    assert (ts + [now])[|ts|] == now;
  }

  lemma CapOfSuffix(ts: seq<nat>, now: nat, k: nat)
    requires k <= |ts|
    ensures LastN(ts[Max(k, |ts| - MAX_UPDATE_HISTORY)..] + [now], MAX_UPDATE_HISTORY)
            == LastN(ts[k..] + [now], MAX_UPDATE_HISTORY)
  {
    var all, m := ts + [now], Max(k, |ts| - MAX_UPDATE_HISTORY);
    assert ts[k..] + [now] == all[k..] && ts[m..] + [now] == all[m..];
    LastOfSuffix(all, k, MAX_UPDATE_HISTORY);
    LastOfSuffix(all, m, MAX_UPDATE_HISTORY);
  }

  lemma SuffixOfSuffix(ts: seq<nat>, from: nat, k: nat, k2: nat, now: nat)
    requires from <= |ts| && k <= |ts| && k2 <= |ts| - from
    requires forall i :: 0 <= i < |ts| ==> (Within(now, ts[i]) <==> k <= i)
    requires forall i :: 0 <= i < |ts[from..]| ==> (Within(now, ts[from..][i]) <==> k2 <= i)
    ensures ts[from..][k2..] == ts[Max(from, k)..]
  {
    var w := ts[from..];
    assert forall i :: 0 <= i < |w| ==> w[i] == ts[from + i];
    if k2 < |w| {
      assert Within(now, w[k2]);
    }
    if k2 > 0 {
      assert !Within(now, w[k2 - 1]);
    }
    assert from + k2 == Max(from, k);
    assert w[k2..] == ts[from + k2..];
  }

  // ------------------------------------------------------------------ the trace grows by one event

  lemma PrefixLargeAt(width: uint32, height: uint32, tr: seq<Event>, n: nat, i: nat)
    requires i < n <= |tr|
    ensures LargeAt(width, height, tr[..n], i) == LargeAt(width, height, tr, i)
  {
    assert tr[..n][..i] == tr[..i];
  }

  lemma {:induction false} PrefixCount(width: uint32, height: uint32, tr: seq<Event>, n: nat, s: nat, k: nat, now: nat)
    requires k <= n <= |tr|
    ensures CountLarge(width, height, tr[..n], s, k, now) == CountLarge(width, height, tr, s, k, now)
  {
    if k > s + 1 {
      PrefixLargeAt(width, height, tr, n, k - 1);
      PrefixCount(width, height, tr, n, s, k - 1, now);
    }
  }

  lemma PrefixThird(width: uint32, height: uint32, tr: seq<Event>, n: nat, s: nat, u: nat)
    requires u < n <= |tr|
    ensures ThirdLarge(width, height, tr[..n], s, u) == ThirdLarge(width, height, tr, s, u)
  {
    PrefixLargeAt(width, height, tr, n, u);
    if tr[u].Graphics? {
      PrefixCount(width, height, tr, n, s, u + 1, tr[u].now);
    }
  }

  lemma MoveSnoc(tr: seq<Event>, p: nat, s: nat)
    requires p < |tr| - 1
    ensures var n := |tr| - 1;
            HasMove(tr, p, s) <==> HasMove(tr[..n], p, s) || (s < n && MovesFar(tr, p, n))
  {
    var n := |tr| - 1;
    if HasMove(tr[..n], p, s) {
      var m :| s < m < n && MovesFar(tr[..n], p, m);
      assert MovesFar(tr, p, m);
    }
    if HasMove(tr, p, s) {
      var m :| s < m < |tr| && MovesFar(tr, p, m);
      if m < n {
        assert MovesFar(tr[..n], p, m);
      }
    }
  }

  lemma DragSnoc(width: uint32, height: uint32, tr: seq<Event>, p: nat, s: nat)
    requires p < |tr| - 1
    ensures var n := |tr| - 1;
            HasDrag(width, height, tr, p, s)
            <==> HasDrag(width, height, tr[..n], p, s)
                 || (HasMove(tr[..n], p, s) && ThirdLarge(width, height, tr, s, n))
  {
    var n := |tr| - 1;
    if HasDrag(width, height, tr, p, s) {
      var m: nat, u: nat :| DragFrom(width, height, tr, p, s, m, u);
      DragBefore(width, height, tr, p, s, m, u);
    }
    if HasDrag(width, height, tr[..n], p, s) {
      var m: nat, u: nat :| DragFrom(width, height, tr[..n], p, s, m, u);
      PrefixDrag(width, height, tr, p, s, m, u);
    } else if HasMove(tr[..n], p, s) && ThirdLarge(width, height, tr, s, n) {
      var m :| s < m < n && MovesFar(tr[..n], p, m);
      assert DragFrom(width, height, tr, p, s, m, n);
    }
  }

  lemma DragBefore(width: uint32, height: uint32, tr: seq<Event>, p: nat, s: nat, m: nat, u: nat)
    requires p < |tr| - 1 && DragFrom(width, height, tr, p, s, m, u)
    ensures var n := |tr| - 1;
            HasDrag(width, height, tr[..n], p, s) || (HasMove(tr[..n], p, s) && ThirdLarge(width, height, tr, s, n))
  {
    var n := |tr| - 1;
    assert MovesFar(tr[..n], p, m);
    if u < n {
      PrefixDrag(width, height, tr, p, s, m, u);
    }
  }

  lemma PrefixDrag(width: uint32, height: uint32, tr: seq<Event>, p: nat, s: nat, m: nat, u: nat)
    requires p < |tr| - 1 && u < |tr| - 1
    ensures DragFrom(width, height, tr[..|tr| - 1], p, s, m, u) <==> DragFrom(width, height, tr, p, s, m, u)
  {
    PrefixThird(width, height, tr, |tr| - 1, s, u);
  }

  ghost predicate TimeIn(tr: seq<Event>, t: nat) {
    exists j :: 0 <= j < |tr| && tr[j].Graphics? && tr[j].now == t
  }

  lemma TimeInPrefix(tr: seq<Event>, t: nat)
    requires tr != [] && TimeIn(tr[..|tr| - 1], t)
    ensures TimeIn(tr, t)
    ensures ClockOk(tr) && tr[|tr| - 1].Graphics? ==> t <= tr[|tr| - 1].now
  {
    var n := |tr| - 1;
    var j :| 0 <= j < n && tr[..n][j].Graphics? && tr[..n][j].now == t;
    assert tr[j].Graphics? && tr[j].now == t;
  }

  /** The times of the updates are in order, and they are times of events. */
  lemma {:induction false} LargeTimesOrdered(width: uint32, height: uint32, tr: seq<Event>, s: nat)
    requires ClockOk(tr)
    ensures Nondecreasing(LargeTimes(width, height, tr, s))
    ensures forall i :: 0 <= i < |LargeTimes(width, height, tr, s)| ==> TimeIn(tr, LargeTimes(width, height, tr, s)[i])
  {
    if |tr| > s + 1 {
      var n := |tr| - 1;
      var ts, init := LargeTimes(width, height, tr, s), LargeTimes(width, height, tr[..n], s);
      LargeTimesOrdered(width, height, tr[..n], s);
      forall i | 0 <= i < |init|
        ensures TimeIn(tr, init[i]) && (tr[n].Graphics? ==> init[i] <= tr[n].now)
      {
        TimeInPrefix(tr, init[i]);
      }
      if LargeAt(width, height, tr, n) {
        assert ts == init + [tr[n].now];
        assert TimeIn(tr, tr[n].now);
      }
    }
  }

  lemma DropOldGrows(ts: seq<nat>, x: nat, now: nat)
    requires Nondecreasing(ts + [x])
    ensures |DropOld(ts + [x], now)| == |DropOld(ts, now)| + (if Within(now, x) then 1 else 0)
  {
    NondecreasingParts(ts, x);
    var all := ts + [x];
    var k := DropOldIsSuffix(ts, now);
    var k1 := DropOldIsSuffix(all, now);
    assert all[|ts|] == x && forall i :: 0 <= i < |ts| ==> all[i] == ts[i];
    if k < |ts| {
      WithinMonotone(now, ts[k], x);
      assert Within(now, all[k]);
    }
    if k > 0 {
      assert !Within(now, all[k - 1]);
    }
  }

  /** Counting over the trace is measuring the pruned history. */
  lemma {:induction false} CountIsRecent(width: uint32, height: uint32, tr: seq<Event>, s: nat, now: nat)
    requires ClockOk(tr)
    ensures CountLarge(width, height, tr, s, |tr|, now) == |DropOld(LargeTimes(width, height, tr, s), now)|
  {
    if |tr| > s + 1 {
      var n := |tr| - 1;
      CountIsRecent(width, height, tr[..n], s, now);
      PrefixCount(width, height, tr, n, s, n, now);
      if LargeAt(width, height, tr, n) {
        LargeTimesOrdered(width, height, tr, s);
        DropOldGrows(LargeTimes(width, height, tr[..n], s), tr[n].now, now);
      }
    }
  }

  // ------------------------------------------------------------------ the main invariant

  /** Everything the detector holds, told from the trace. */
  ghost predicate Explains(width: uint32, height: uint32, tr: seq<Event>, st: State) {
    var p, s := PressOf(tr), StartOf(tr);
    && (st.width, st.height) == Screen(width, height, tr)
    && (st.buttonDown <==> p >= 0)
    && (p < 0 ==> st.stamps == [] && st.phase == Idle)
    && (p >= 0 ==>
          && IsDown(tr[p]) && st.downX == tr[p].x && st.downY == tr[p].y
          && st.stamps == Window(LargeTimes(width, height, tr, s))
          && (st.phase == Idle <==> !HasMove(tr, p, s))
          && (st.phase == Dragging <==> HasDrag(width, height, tr, p, s)))
  }

  lemma ExplainsMouse(width: uint32, height: uint32, tr: seq<Event>, st: State)
    requires tr != [] && tr[|tr| - 1].Mouse? && Explains(width, height, tr[..|tr| - 1], st)
    ensures Explains(width, height, tr, Step(st, tr[|tr| - 1]))
  {
    var n := |tr| - 1;
    var q, s := PressOf(tr[..n]), StartOf(tr[..n]);
    if IsDown(tr[n]) && q >= 0 {
      MoveSnoc(tr, q, s);
      DragSnoc(width, height, tr, q, s);
    }
  }

  lemma ExplainsGraphics(width: uint32, height: uint32, tr: seq<Event>, st: State)
    requires tr != [] && tr[|tr| - 1].Graphics? && ClockOk(tr)
    requires Explains(width, height, tr[..|tr| - 1], st)
    ensures Explains(width, height, tr, Step(st, tr[|tr| - 1]))
  {
    var n := |tr| - 1;
    var q, s := PressOf(tr[..n]), StartOf(tr[..n]);
    if q >= 0 {
      var ts := LargeTimes(width, height, tr[..n], s);
      MoveSnoc(tr, q, s);
      DragSnoc(width, height, tr, q, s);
      if LargeAt(width, height, tr, n) {
        LargeTimesOrdered(width, height, tr, s);
        assert LargeTimes(width, height, tr, s) == ts + [tr[n].now];
        NondecreasingParts(ts, tr[n].now);
        WindowStep(ts, tr[n].now);
        WindowSnoc(ts, tr[n].now);
        assert |Window(ts + [tr[n].now])| == Min(|DropOld(ts, tr[n].now)| + 1, MAX_UPDATE_HISTORY);
        DropOldSnoc(ts, tr[n].now);
        CountIsRecent(width, height, tr, s, tr[n].now);
      }
    }
  }

  lemma {:induction false} RunExplained(width: uint32, height: uint32, tr: seq<Event>)
    requires ClockOk(tr)
    ensures Explains(width, height, tr, Run(NewState(width, height), tr))
  {
    if tr != [] {
      var n := |tr| - 1;
      RunExplained(width, height, tr[..n]);
      var st := Run(NewState(width, height), tr[..n]);
      if tr[n].Mouse? {
        ExplainsMouse(width, height, tr, st);
      } else if tr[n].Graphics? {
        ExplainsGraphics(width, height, tr, st);
      } else {
        assert Explains(width, height, tr, Step(st, tr[|tr| - 1]));
      }
    }
  }

  /** After any trace a drag is reported exactly when, since the press of the button still held and
      the last resize after it, the mouse was moved far enough and then came a large update that was
      at least the third one within the window. */
  lemma DragExact(width: uint32, height: uint32, tr: seq<Event>)
    requires ClockOk(tr)
    ensures Run(NewState(width, height), tr).phase == Dragging <==> DragGoesOn(width, height, tr)
  {
    RunExplained(width, height, tr);
    var p, s := PressOf(tr), StartOf(tr);
    if p >= 0 {
      PressOfIsPress(tr);
      StartOfIsStart(tr);
    }
    if DragGoesOn(width, height, tr) {
      var p1: nat, s1: nat :| IsPress(tr, p1) && IsStart(tr, p1, s1) && HasDrag(width, height, tr, p1, s1);
      PressUnique(tr, p1, s1);
    }
  }

  lemma RunSnoc(init: State, tr: seq<Event>, e: Event)
    ensures Run(init, tr + [e]) == Step(Run(init, tr), e)
  {
    assert (tr + [e])[..|tr|] == tr;
  }

  /** A release, a resize or a reset. */
  predicate Ends(e: Event) {
    e.Resize? || e.Reset? || (e.Mouse? && !MainButton(e.mask))
  }

  /** A gesture under way: tracked or dragging, with the button held. */
  predicate UnderWay(s: State) {
    s.phase != Idle && s.buttonDown
  }

  lemma StepEnds(s: State, e: Event)
    requires UnderWay(s)
    ensures if Ends(e) then Step(s, e).phase == Idle else UnderWay(Step(s, e))
  {
  }

  lemma {:induction false} HeldUnlessIdle(width: uint32, height: uint32, tr: seq<Event>)
    ensures var s := Run(NewState(width, height), tr); s.phase != Idle ==> s.buttonDown
  {
    if tr != [] {
      HeldUnlessIdle(width, height, tr[..|tr| - 1]);
    }
  }

  lemma {:induction false} StaysUnderWay(init: State, tr: seq<Event>, more: seq<Event>)
    requires UnderWay(Run(init, tr)) && forall k :: 0 <= k < |more| ==> !Ends(more[k])
    ensures UnderWay(Run(init, tr + more))
  {
    if more == [] {
      assert tr + more == tr;
    } else {
      var n := |more| - 1;
      StaysUnderWay(init, tr, more[..n]);
      assert tr + more == (tr + more[..n]) + [more[n]];
      RunSnoc(init, tr + more[..n], more[n]);
      StepEnds(Run(init, tr + more[..n]), more[n]);
    }
  }

  /** At some point of `more`, the detector is idle. */
  ghost predicate FallsIdle(init: State, tr: seq<Event>, more: seq<Event>) {
    exists n :: 0 <= n <= |more| && Run(init, tr + more[..n]).phase == Idle
  }

  /** From any run that tracks, whatever comes next, the detector falls back to idle exactly when a
      release, a resize or a reset is among it: time plays no part. */
  lemma TrackingEndsIff(width: uint32, height: uint32, tr: seq<Event>, more: seq<Event>)
    requires Run(NewState(width, height), tr).phase == Tracking
    ensures FallsIdle(NewState(width, height), tr, more) <==> exists k :: 0 <= k < |more| && Ends(more[k])
  {
    var init := NewState(width, height);
    HeldUnlessIdle(width, height, tr);
    var k := FirstEnd(more);
    if k < |more| {
      StaysUnderWay(init, tr, more[..k]);
      assert tr + more[..k + 1] == (tr + more[..k]) + [more[k]];
      RunSnoc(init, tr + more[..k], more[k]);
      StepEnds(Run(init, tr + more[..k]), more[k]);
      assert Run(init, tr + more[..k + 1]).phase == Idle;
    } else {
      forall n | 0 <= n <= |more|
        ensures Run(init, tr + more[..n]).phase != Idle
      {
        StaysUnderWay(init, tr, more[..n]);
      }
    }
  }

  lemma FirstEnd(more: seq<Event>) returns (k: nat)
    ensures k <= |more| && (forall j :: 0 <= j < k ==> !Ends(more[j])) && (k < |more| ==> Ends(more[k]))
  {
    k := 0;
    while k < |more| && !Ends(more[k])
      invariant k <= |more| && forall j :: 0 <= j < k ==> !Ends(more[j])
    {
      k := k + 1;
    }
  }

  lemma {:induction false} DropOldShrinks(stamps: seq<nat>, now: nat)
    ensures |DropOld(stamps, now)| <= |stamps|
  {
    if stamps != [] {
      DropOldShrinks(stamps[1..], now);
    }
  }

  lemma FewUpdatesTrack(s: State, width: uint32, height: uint32, now: nat)
    requires s.phase == Tracking && |s.stamps| <= 1
    ensures AfterGraphics(s, width, height, now).phase == Tracking
    ensures |AfterGraphics(s, width, height, now).stamps| <= |s.stamps| + 1
  {
    DropOldShrinks(s.stamps, now);
  }

  /** So a drag can be tracked for any time: here two large updates lie any time apart. */
  lemma TrackingOutlivesWindow(width: uint32, height: uint32, x: int32, y: int32, first: nat, later: nat)
    requires Far(x, y, 0, 0) && first <= later
    ensures var tr := [Mouse(0, 0, 1)] + [Mouse(x, y, 1)] + [Graphics(width, height, first)] + [Graphics(width, height, later)];
            ClockOk(tr) && Run(NewState(width, height), tr).phase == Tracking
  {
    var s0 := NewState(width, height);
    var press, move := Mouse(0, 0, 1), Mouse(x, y, 1);
    var update, last := Graphics(width, height, first), Graphics(width, height, later);
    assert [] + [press] == [press];
    RunSnoc(s0, [], press);
    RunSnoc(s0, [press], move);
    RunSnoc(s0, [press] + [move], update);
    RunSnoc(s0, [press] + [move] + [update], last);
    var s2 := Step(Step(s0, press), move);
    FewUpdatesTrack(s2, width, height, first);
    var s3 := Step(s2, update);
    assert s2.stamps == [];
    FewUpdatesTrack(s3, width, height, later);
  }

  lemma WindowNondecreasing(ts: seq<nat>)
    requires Nondecreasing(ts)
    ensures Nondecreasing(Window(ts)) && |Window(ts)| <= MAX_UPDATE_HISTORY
  {
    if ts != [] {
      var _, from := WindowIsSuffix(ts);
      NondecreasingTail(ts, from);
    }
  }

  /** The queue is the window of the full history while a button is held, and empty otherwise. */
  lemma QueueExact(width: uint32, height: uint32, tr: seq<Event>)
    requires ClockOk(tr)
    ensures var stamps := Run(NewState(width, height), tr).stamps;
            && |stamps| <= 16 && Nondecreasing(stamps)
            && (PressOf(tr) < 0 ==> stamps == [])
            && (forall p, s :: IsPress(tr, p) && IsStart(tr, p, s) ==>
                  stamps == Window(LargeTimes(width, height, tr, s)))
  {
    RunExplained(width, height, tr);
    if PressOf(tr) >= 0 {
      LargeTimesOrdered(width, height, tr, StartOf(tr));
      WindowNondecreasing(LargeTimes(width, height, tr, StartOf(tr)));
    }
    forall p: nat, s: nat | IsPress(tr, p) && IsStart(tr, p, s) {
      PressUnique(tr, p, s);
    }
  }

  // ------------------------------------------------------------------ the end of a drag

  /** A release ended a drag, and no mouse event or reset came after it. */
  ghost predicate EndedBy(width: uint32, height: uint32, tr: seq<Event>, i: nat) {
    && i < |tr| && tr[i].Mouse? && !MainButton(tr[i].mask)
    && Run(NewState(width, height), tr[..i]).phase == Dragging
    && forall k :: i < k < |tr| ==> !tr[k].Mouse? && !tr[k].Reset?
  }

  /** The end of a drag is reported exactly from the release until the next mouse event or reset. */
  lemma {:induction false} DragEndedIff(width: uint32, height: uint32, tr: seq<Event>)
    requires ClockOk(tr)
    ensures Run(NewState(width, height), tr).justEnded <==> exists i :: EndedBy(width, height, tr, i)
  {
    if tr != [] {
      var n := |tr| - 1;
      var e := tr[n];
      DragEndedIff(width, height, tr[..n]);
      RunExplained(width, height, tr[..n]);
      if e.Mouse? || e.Reset? {
        EndedNow(width, height, tr);
      } else {
        forall i: nat ensures EndedBy(width, height, tr[..n], i) <==> EndedBy(width, height, tr, i) {
          EndedBefore(width, height, tr, i);
        }
      }
    }
  }

  lemma EndedBefore(width: uint32, height: uint32, tr: seq<Event>, i: nat)
    requires tr != [] && !tr[|tr| - 1].Mouse? && !tr[|tr| - 1].Reset?
    ensures EndedBy(width, height, tr[..|tr| - 1], i) <==> EndedBy(width, height, tr, i)
  {
    if i < |tr| - 1 {
      assert tr[..|tr| - 1][..i] == tr[..i];
    }
  }

  /** A mouse event or reset ends a drag itself or hides that one was ended. */
  lemma EndedNow(width: uint32, height: uint32, tr: seq<Event>)
    requires tr != [] && (tr[|tr| - 1].Mouse? || tr[|tr| - 1].Reset?) && ClockOk(tr)
    requires Explains(width, height, tr[..|tr| - 1], Run(NewState(width, height), tr[..|tr| - 1]))
    ensures Run(NewState(width, height), tr).justEnded <==> exists i :: EndedBy(width, height, tr, i)
  {
    var n := |tr| - 1;
    if i :| EndedBy(width, height, tr, i) {
      assert i == n;
    }
    if Run(NewState(width, height), tr).justEnded {
      assert EndedBy(width, height, tr, n);
    }
  }

  // ------------------------------------------------------------------ displacement

  function LastMouse(tr: seq<Event>): (i: int)
    ensures -1 <= i < |tr|
    ensures i >= 0 ==> tr[i].Mouse?
    ensures forall k :: i < k < |tr| ==> !tr[k].Mouse?
  {
    if tr == [] then -1
    else if tr[|tr| - 1].Mouse? then |tr| - 1
    else LastMouse(tr[..|tr| - 1])
  }

  /** Where the mouse was at event `i`; at the origin before any mouse event. */
  function Position(tr: seq<Event>, i: int): (int32, int32)
    requires -1 <= i < |tr|
    requires i >= 0 ==> tr[i].Mouse?
  {
    if i < 0 then (0, 0) else (tr[i].x, tr[i].y)
  }

  /** Where the last step of the mouse came from: the mouse event before, unless it was a press. */
  function StepFrom(tr: seq<Event>): (int32, int32) {
    var j := LastMouse(tr);
    if j < 0 || PressOf(tr[..j + 1]) == j then Position(tr, j) else Position(tr[..j], LastMouse(tr[..j]))
  }

  lemma {:induction false} LastKept(width: uint32, height: uint32, tr: seq<Event>)
    requires ClockOk(tr)
    ensures var st := Run(NewState(width, height), tr); (st.lastX, st.lastY) == Position(tr, LastMouse(tr))
  {
    if tr != [] {
      LastKept(width, height, tr[..|tr| - 1]);
    }
  }

  lemma {:induction false} PrevKept(width: uint32, height: uint32, tr: seq<Event>)
    requires ClockOk(tr)
    ensures var st := Run(NewState(width, height), tr); (st.prevX, st.prevY) == StepFrom(tr)
  {
    if tr != [] {
      var n := |tr| - 1;
      PrevKept(width, height, tr[..n]);
      if tr[n].Mouse? {
        LastKept(width, height, tr[..n]);
        RunExplained(width, height, tr[..n]);
        StepFromMouse(tr);
        var st := Run(NewState(width, height), tr[..n]);
        assert st.buttonDown <==> PressOf(tr[..n]) >= 0;
        PrevAfterMouse(st, tr[n].x, tr[n].y, tr[n].mask);
      } else {
        StepFromSame(tr);
      }
    }
  }

  lemma PrevAfterMouse(s: State, x: int32, y: int32, mask: byteMask)
    ensures var t := AfterMouse(s, x, y, mask);
            (t.prevX, t.prevY) == if MainButton(mask) && !s.buttonDown then (x, y) else (s.lastX, s.lastY)
  {
  }

  lemma StepFromMouse(tr: seq<Event>)
    requires tr != [] && tr[|tr| - 1].Mouse?
    ensures var n := |tr| - 1;
            StepFrom(tr) == if IsDown(tr[n]) && PressOf(tr[..n]) < 0 then Position(tr, n) else Position(tr[..n], LastMouse(tr[..n]))
  {
    assert tr[..|tr|] == tr;
  }

  lemma StepFromSame(tr: seq<Event>)
    requires tr != [] && !tr[|tr| - 1].Mouse?
    ensures StepFrom(tr) == StepFrom(tr[..|tr| - 1])
  {
    var n, j := |tr| - 1, LastMouse(tr);
    if j >= 0 {
      assert tr[..n][..j + 1] == tr[..j + 1] && tr[..n][..j] == tr[..j];
    }
  }

  /** The displacement reported is the last step of the mouse: from the mouse event before the last
      one to the last one, and nothing at all when the last one is a press. */
  lemma DeltaIsLastStep(width: uint32, height: uint32, tr: seq<Event>)
    requires ClockOk(tr)
    ensures var (x, y) := Position(tr, LastMouse(tr));
            var (fromX, fromY) := StepFrom(tr);
            Delta(Run(NewState(width, height), tr)) == (Wrap32(x - fromX), Wrap32(y - fromY))
  {
    LastKept(width, height, tr);
    PrevKept(width, height, tr);
  }
}
