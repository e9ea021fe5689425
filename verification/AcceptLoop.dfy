/**
 The accept loop of the server, its shutdown signal and the count of active connections, as steps of
 concurrent tasks that may interleave in any order.

 The accept task subscribes to the signal when it starts, then polls the signal first and a pending
 connection second. For an accepted connection it subscribes once more, counts the connection in and
 spawns a task; that task ends when its handler is done or when its subscription wakes it, and then
 counts the connection out. A subscription wakes for a signal sent after it, never for an earlier one,
 and for the end of the channel: no sender is left once the accept task has stopped, which holds one,
 and the server's handle is gone, which holds the other.
 */
module AcceptLoop {
  /** Where the accept task is; `seen` is the number of signals sent before a subscription. */
  datatype AcceptTask =
    | Starting
    | PollShutdown
    | PollAccept
    | Accepted
    | Subscribed(seen: nat)
    | Counted(seen: nat)
    | Stopped

  /** A spawned connection task: served, about to count itself out, or gone. */
  datatype ConnTask = Running(seen: nat) | Closing | Gone

  /** `signals` were sent so far, `missed` of them before the accept task subscribed; `accepted` and
      `acceptedLate` count the connections accepted at all and after a signal not missed; `handle` says
      whether somebody still holds the server's handle. */
  datatype Server = Server(
    task: AcceptTask, signals: nat, missed: nat, conns: seq<ConnTask>, active: int,
    accepted: nat, acceptedLate: nat, handle: bool)

  datatype Action =
    | SendSignal
    | DropHandle           // the handle goes out of scope, as at the end of `shutdown`
    | Start                // the accept task runs for the first time and subscribes
    | SeeShutdown          // it polls the signal
    | AcceptReady          // it finds a pending connection
    | AcceptPending        // it finds none, sleeps, and polls again when woken
    | AcceptFails
    | Subscribe
    | CountIn
    | Spawn
    | HandlerDone(c: nat)
    | Interrupted(c: nat)
    | CountOut(c: nat)

  const INITIAL := Server(Starting, 0, 0, [], 0, 0, 0, true)

  /** A signal was sent that the accept task can see. */
  predicate Heard(s: Server) {
    !s.task.Starting? && s.signals > s.missed
  }

  /** No sender of the signal is left. */
  predicate Closed(s: Server) {
    s.task.Stopped? && !s.handle
  }

  /** May the step be taken now? */
  predicate Enabled(s: Server, a: Action) {
    match a
    case SendSignal | DropHandle => s.handle
    case Start => s.task.Starting?
    case SeeShutdown => s.task.PollShutdown?
    case AcceptReady | AcceptPending | AcceptFails => s.task.PollAccept?
    case Subscribe => s.task.Accepted?
    case CountIn => s.task.Subscribed?
    case Spawn => s.task.Counted?
    case HandlerDone(c) => c < |s.conns| && s.conns[c].Running?
    case Interrupted(c) => c < |s.conns| && s.conns[c].Running? && (s.conns[c].seen < s.signals || Closed(s))
    case CountOut(c) => c < |s.conns| && s.conns[c].Closing?
  }

  function Apply(s: Server, a: Action): Server
    requires Enabled(s, a)
  {
    match a
    case SendSignal => s.(signals := s.signals + 1)
    case DropHandle => s.(handle := false)
    case Start => s.(task := PollShutdown, missed := s.signals)
    case SeeShutdown => s.(task := if Heard(s) then Stopped else PollAccept)
    case AcceptReady =>
      s.(task := Accepted, accepted := s.accepted + 1,
         acceptedLate := if Heard(s) then s.acceptedLate + 1 else s.acceptedLate)
    case AcceptPending | AcceptFails => s.(task := PollShutdown)
    case Subscribe => s.(task := Subscribed(s.signals))
    case CountIn => s.(task := Counted(s.task.seen), active := s.active + 1)
    case Spawn => s.(task := PollShutdown, conns := s.conns + [Running(s.task.seen)])
    case HandlerDone(c) => s.(conns := s.conns[c := Closing])
    case Interrupted(c) => s.(conns := s.conns[c := Closing])
    case CountOut(c) => s.(conns := s.conns[c := Gone], active := s.active - 1)
  }

  predicate CanRun(s: Server, actions: seq<Action>)
    decreases |actions|
  {
    actions == [] || (Enabled(s, actions[0]) && CanRun(Apply(s, actions[0]), actions[1..]))
  }

  function Run(s: Server, actions: seq<Action>): Server
    requires CanRun(s, actions)
    decreases |actions|
  {
    if actions == [] then s else Run(Apply(s, actions[0]), actions[1..])
  }

  // ------------------------------------------------------------------ the invariant

  /** The spawned connections that have not counted themselves out. */
  function Open(conns: seq<ConnTask>): nat {
    if conns == [] then 0 else Open(conns[..|conns| - 1]) + (if conns[|conns| - 1].Gone? then 0 else 1)
  }

  function InHand(t: AcceptTask): nat {
    if t.Accepted? || t.Subscribed? || t.Counted? then 1 else 0
  }

  /** How many connections can still be counted in once a signal was heard. */
  function StillToCount(t: AcceptTask): nat {
    if t.PollAccept? || t.Accepted? || t.Subscribed? then 1 else 0
  }

  predicate Ok(s: Server) {
    && s.active == Open(s.conns) + (if s.task.Counted? then 1 else 0)
    && s.accepted == |s.conns| + InHand(s.task)
    && s.missed <= s.signals
    && (!Heard(s) ==> s.acceptedLate == 0 && !s.task.Stopped?)
    && s.acceptedLate <= 1
    && (Heard(s) && s.task.PollAccept? ==> s.acceptedLate == 0)
    && (s.task.Starting? ==> s.missed == 0 && s.conns == [])
    && SeenOk(s)
  }

  /** Connections subscribe after the accept task, to signals not yet sent. */
  predicate SeenOk(s: Server) {
    && (s.task.Subscribed? || s.task.Counted? ==> s.missed <= s.task.seen <= s.signals)
    && forall c :: 0 <= c < |s.conns| && s.conns[c].Running? ==> s.missed <= s.conns[c].seen <= s.signals
  }

  lemma {:induction false} OpenUpdate(conns: seq<ConnTask>, c: nat, t: ConnTask)
    requires c < |conns|
    ensures Open(conns[c := t])
            == Open(conns) - (if conns[c].Gone? then 0 else 1) + (if t.Gone? then 0 else 1)
  {
    var n := |conns| - 1;
    if c < n {
      OpenUpdate(conns[..n], c, t);
      assert conns[c := t][..n] == conns[..n][c := t];
    } else {
      assert conns[c := t][..n] == conns[..n];
    }
  }

  lemma StepOk(s: Server, a: Action)
    requires Ok(s) && Enabled(s, a)
    ensures Ok(Apply(s, a))
  {
    if a.HandlerDone? || a.Interrupted? || a.CountOut? {
      ConnStepOk(s, a);
    } else if a.Spawn? {
      SpawnOk(s);
    } else {
      assert Ok(Apply(s, a));
    }
  }

  lemma ConnStepOk(s: Server, a: Action)
    requires Ok(s) && Enabled(s, a) && (a.HandlerDone? || a.Interrupted? || a.CountOut?)
    ensures Ok(Apply(s, a))
  {
    OpenUpdate(s.conns, a.c, if a.CountOut? then Gone else Closing);
  }

  lemma SpawnOk(s: Server)
    requires Ok(s) && s.task.Counted?
    ensures Ok(Apply(s, Spawn))
  {
    assert (s.conns + [Running(s.task.seen)])[..|s.conns|] == s.conns;
  }

  lemma {:induction false} RunOk(s: Server, actions: seq<Action>)
    requires Ok(s) && CanRun(s, actions)
    ensures Ok(Run(s, actions))
    decreases |actions|
  {
    if actions != [] {
      StepOk(s, actions[0]);
      RunOk(Apply(s, actions[0]), actions[1..]);
    }
  }

  // ------------------------------------------------------------------ what follows for every interleaving

  function CountIns(actions: seq<Action>): nat {
    if actions == [] then 0 else (if actions[0].CountIn? then 1 else 0) + CountIns(actions[1..])
  }

  function CountOuts(actions: seq<Action>): nat {
    if actions == [] then 0 else (if actions[0].CountOut? then 1 else 0) + CountOuts(actions[1..])
  }

  lemma {:induction false} ActiveIsDifference(s: Server, actions: seq<Action>)
    requires CanRun(s, actions)
    ensures Run(s, actions).active == s.active + CountIns(actions) - CountOuts(actions)
    decreases |actions|
  {
    if actions != [] {
      ActiveIsDifference(Apply(s, actions[0]), actions[1..]);
    }
  }

  /** In every interleaving the counter is the connections counted in and not yet out, it is never
      negative, and at most one connection is accepted after a signal that the loop can see. */
  lemma Safety(actions: seq<Action>)
    requires CanRun(INITIAL, actions)
    ensures var s := Run(INITIAL, actions);
            && s.active == CountIns(actions) - CountOuts(actions) >= 0
            && s.active == Open(s.conns) + (if s.task.Counted? then 1 else 0)
            && s.accepted == |s.conns| + InHand(s.task)
            && s.acceptedLate <= 1
  {
    RunOk(INITIAL, actions);
    ActiveIsDifference(INITIAL, actions);
  }

  /** Once the accept loop has stopped, it stays stopped, and no connection is counted in any more. */
  lemma {:induction false} StoppedForGood(s: Server, actions: seq<Action>)
    requires s.task.Stopped? && CanRun(s, actions)
    ensures Run(s, actions).task.Stopped? && CountIns(actions) == 0
    decreases |actions|
  {
    if actions != [] {
      StoppedForGood(Apply(s, actions[0]), actions[1..]);
    }
  }

  /** A stopped loop and a counter at zero mean that all connections are gone, for good. */
  lemma DrainedForGood(s: Server, actions: seq<Action>)
    requires Ok(s) && s.task.Stopped? && s.active == 0 && CanRun(s, actions)
    ensures Run(s, actions).active == 0
  {
    StoppedForGood(s, actions);
    ActiveIsDifference(s, actions);
    RunOk(s, actions);
  }

  /** After a signal that the loop can see, at most one connection is still counted in, even if the
      counter was read as zero before: the one that the loop was about to accept or had in hand. */
  lemma {:induction false} CountedInAfterSignal(s: Server, actions: seq<Action>)
    requires Heard(s) && CanRun(s, actions)
    ensures CountIns(actions) <= StillToCount(s.task) <= 1
    decreases |actions|
  {
    if actions != [] {
      CountedInAfterSignal(Apply(s, actions[0]), actions[1..]);
    }
  }

  /** A counter at zero after a signal that the loop can see stays at zero exactly when the loop has no
      connection on its way: the draining shutdown may read zero too early. */
  lemma DrainedIff(s: Server)
    requires Ok(s) && Heard(s) && s.active == 0
    ensures (forall actions :: CanRun(s, actions) ==> Run(s, actions).active == 0) <==> StillToCount(s.task) == 0
  {
    if StillToCount(s.task) == 0 {
      forall actions | CanRun(s, actions)
        ensures Run(s, actions).active == 0
      {
        CountedInAfterSignal(s, actions);
        ActiveIsDifference(s, actions);
        RunOk(s, actions);
      }
    } else {
      var actions := ToCountIn(s.task);
      CountsOne(s);
      assert Run(s, actions).active == 1;
    }
  }

  /** The steps of the accept task from where it may still count a connection in. */
  function ToCountIn(t: AcceptTask): seq<Action> {
    if t.PollAccept? then [AcceptReady, Subscribe, CountIn]
    else if t.Accepted? then [Subscribe, CountIn]
    else [CountIn]
  }

  lemma CountsOne(s: Server)
    requires StillToCount(s.task) == 1
    ensures CanRun(s, ToCountIn(s.task)) && Run(s, ToCountIn(s.task)).active == s.active + 1
  {
    var last: seq<Action> := [CountIn];
    var two: seq<Action> := [Subscribe, CountIn];
    assert last[1..] == [] && two[1..] == last && [AcceptReady, Subscribe, CountIn][1..] == two;
    match s.task
    case PollAccept =>
      var s1 := Apply(s, AcceptReady);
      var s2 := Apply(s1, Subscribe);
      OneStep(s2, CountIn);
      assert CanRun(s1, two) && Run(s1, two) == Run(s2, last);
    case Accepted =>
      OneStep(Apply(s, Subscribe), CountIn);
    case Subscribed(_) =>
      OneStep(s, CountIn);
    case _ =>
  }

  lemma OneStep(s: Server, a: Action)
    requires Enabled(s, a)
    ensures CanRun(s, [a]) && Run(s, [a]) == Apply(s, a)
  {
    assert [a][1..] == [];
    assert CanRun(Apply(s, a), []);
  }

  /** A run in which the counter is read as zero after the signal and is one later. */
  lemma ZeroReadTooEarly()
    ensures var before, after := [Start, SeeShutdown, SendSignal, AcceptReady], [Subscribe, CountIn];
            && CanRun(INITIAL, before)
            && var s := Run(INITIAL, before);
               Heard(s) && s.active == 0 && CanRun(s, after) && Run(s, after).active == 1
  {
    var s1 := Apply(INITIAL, Start);
    var s2 := Apply(s1, SeeShutdown);
    var s3 := Apply(s2, SendSignal);
    var s4 := Apply(s3, AcceptReady);
    var a: seq<Action> := [Start, SeeShutdown, SendSignal, AcceptReady];
    OneStep(s3, AcceptReady);
    assert a[1..] == [SeeShutdown, SendSignal, AcceptReady] && a[1..][1..] == [SendSignal, AcceptReady];
    assert a[1..][1..][1..] == [AcceptReady];
    assert CanRun(s2, a[1..][1..]) && Run(s2, a[1..][1..]) == s4;
    assert CanRun(s1, a[1..]) && Run(s1, a[1..]) == s4;
    CountsOne(s4);
  }

  /** How many connections can still be accepted once a signal was heard. */
  lemma {:induction false} AcceptedAfterSignal(s: Server, actions: seq<Action>)
    requires Heard(s) && CanRun(s, actions)
    ensures Run(s, actions).accepted <= s.accepted + (if s.task.PollAccept? then 1 else 0)
    decreases |actions|
  {
    if actions != [] {
      AcceptedAfterSignal(Apply(s, actions[0]), actions[1..]);
    }
  }

  // ------------------------------------------------------------------ a signal sent too early

  /** One round of the loop that accepts a connection and spawns its task. */
  const ROUND: seq<Action> := [SeeShutdown, AcceptReady, Subscribe, CountIn, Spawn]

  function Rounds(n: nat): seq<Action> {
    if n == 0 then [] else ROUND + Rounds(n - 1)
  }

  /** No round stops the loop when all signals so far were missed. */
  lemma {:induction false} RoundsRun(s: Server, n: nat)
    requires s.task.PollShutdown? && s.signals == s.missed
    ensures CanRun(s, Rounds(n))
    ensures var t := Run(s, Rounds(n));
            t.task.PollShutdown? && t.signals == s.signals && t.accepted == s.accepted + n
    decreases n
  {
    if n > 0 {
      var actions := Rounds(n);
      var s1 := Apply(s, SeeShutdown);
      var s2 := Apply(s1, AcceptReady);
      var s3 := Apply(s2, Subscribe);
      var s4 := Apply(s3, CountIn);
      var s5 := Apply(s4, Spawn);
      RoundsRun(s5, n - 1);
      var a1, a2, a3, a4 := actions[1..], actions[1..][1..], actions[1..][1..][1..], actions[1..][1..][1..][1..];
      assert a4[1..] == Rounds(n - 1);
      assert CanRun(s4, a4) && Run(s4, a4) == Run(s5, Rounds(n - 1));
      assert CanRun(s3, a3) && Run(s3, a3) == Run(s4, a4);
      assert CanRun(s2, a2) && Run(s2, a2) == Run(s3, a3);
      assert CanRun(s1, a1) && Run(s1, a1) == Run(s2, a2);
    }
  }

  lemma {:induction false} RunAppend(s: Server, a: seq<Action>, b: seq<Action>)
    requires CanRun(s, a) && CanRun(Run(s, a), b)
    ensures CanRun(s, a + b) && Run(s, a + b) == Run(Run(s, a), b)
    decreases |a|
  {
    if a == [] {
      assert a + b == b;
    } else {
      assert (a + b)[1..] == a[1..] + b;
      RunAppend(Apply(s, a[0]), a[1..], b);
    }
  }

  /** The steps by which the accept task comes back to polling the signal. */
  function BackToPoll(t: AcceptTask): seq<Action> {
    match t
    case Starting => [Start]
    case PollShutdown => []
    case PollAccept => [AcceptPending]
    case Accepted => [Subscribe, CountIn, Spawn]
    case Subscribed(_) => [CountIn, Spawn]
    case Counted(_) => [Spawn]
    case Stopped => []
  }

  /** Unless it has stopped, the task can come back to polling the signal. */
  lemma ComesBack(s: Server)
    requires !s.task.Stopped?
    ensures CanRun(s, BackToPoll(s.task)) && SendSignal !in BackToPoll(s.task)
    ensures var t := Run(s, BackToPoll(s.task));
            && t.task.PollShutdown? && t.signals == s.signals && t.accepted == s.accepted
            && t.missed == (if s.task.Starting? then s.signals else s.missed)
            && t.handle == s.handle && s.conns <= t.conns
  {
    match s.task
    case Starting => OneStep(s, Start);
    case PollAccept => OneStep(s, AcceptPending);
    case Accepted =>
      var s1 := Apply(s, Subscribe);
      var s2 := Apply(s1, CountIn);
      var a: seq<Action> := [Subscribe, CountIn, Spawn];
      OneStep(s2, Spawn);
      assert a[1..] == [CountIn, Spawn] && a[1..][1..] == [Spawn];
      assert CanRun(s1, a[1..]) && Run(s1, a[1..]) == Apply(s2, Spawn);
    case Subscribed(_) =>
      OneStep(Apply(s, CountIn), Spawn);
      assert [CountIn, Spawn][1..] == [Spawn];
    case Counted(_) => OneStep(s, Spawn);
    case _ =>
  }

  /** No more than one connection is accepted from here on, as long as no further signal is sent. */
  ghost predicate AcceptsAtMostOne(s: Server) {
    forall actions :: CanRun(s, actions) && SendSignal !in actions ==> Run(s, actions).accepted <= s.accepted + 1
  }

  /** In every state of every run, at most one connection is accepted from here on exactly when a
      signal was sent that the accept task can see. */
  lemma AtMostOneIff(s: Server)
    requires Ok(s)
    ensures AcceptsAtMostOne(s) <==> Heard(s)
  {
    if Heard(s) {
      forall actions | CanRun(s, actions)
        ensures Run(s, actions).accepted <= s.accepted + 1
      {
        AcceptedAfterSignal(s, actions);
      }
    } else {
      AcceptsTwo(s);
    }
  }

  lemma AcceptsTwo(s: Server)
    requires Ok(s) && !Heard(s)
    ensures var actions := BackToPoll(s.task) + Rounds(2);
            CanRun(s, actions) && SendSignal !in actions && Run(s, actions).accepted == s.accepted + 2
  {
    var back := BackToPoll(s.task);
    ComesBack(s);
    RoundsRun(Run(s, back), 2);
    RunAppend(s, back, Rounds(2));
    RoundsSendNoSignal(2);
  }

  lemma RoundsSendNoSignal(n: nat)
    ensures SendSignal !in Rounds(n)
  {
  }

  lemma {:induction false} StartedIff(s: Server, actions: seq<Action>)
    requires CanRun(s, actions)
    ensures Run(s, actions).task.Starting? <==> s.task.Starting? && Start !in actions
    ensures !s.task.Starting? ==> Run(s, actions).missed == s.missed
    decreases |actions|
  {
    if actions != [] {
      StartedIff(Apply(s, actions[0]), actions[1..]);
      assert actions == [actions[0]] + actions[1..];
    }
  }

  /** So a shutdown signal bounds the connections accepted after it exactly when the accept task had
      already run for the first time when it was sent. */
  lemma SignalBoundsIff(before: seq<Action>)
    requires CanRun(INITIAL, before) && Run(INITIAL, before).handle
    ensures AcceptsAtMostOne(Apply(Run(INITIAL, before), SendSignal)) <==> Start in before
  {
    var s := Run(INITIAL, before);
    RunOk(INITIAL, before);
    StepOk(s, SendSignal);
    StartedIff(INITIAL, before);
    AtMostOneIff(Apply(s, SendSignal));
  }

  // ------------------------------------------------------------------ what interrupts a connection

  /** Without a further signal, some run interrupts connection `c`. */
  ghost predicate CanBeInterrupted(s: Server, c: nat) {
    exists actions :: CanRun(s, actions) && SendSignal !in actions && Interrupted(c) in actions
  }

  lemma {:induction false} NotInterrupted(s: Server, actions: seq<Action>, c: nat)
    requires Ok(s) && !Heard(s) && CanRun(s, actions) && SendSignal !in actions
    ensures Interrupted(c) !in actions
    decreases |actions|
  {
    if actions != [] {
      assert actions == [actions[0]] + actions[1..];
      StepOk(s, actions[0]);
      NotInterrupted(Apply(s, actions[0]), actions[1..], c);
    }
  }

  /** After a signal that it can see, the accept task can stop, and the running connections stay. */
  lemma CanStop(s: Server) returns (actions: seq<Action>)
    requires Ok(s) && Heard(s)
    ensures CanRun(s, actions) && SendSignal !in actions
    ensures var t := Run(s, actions);
            t.task.Stopped? && t.handle == s.handle && s.conns <= t.conns
  {
    if s.task.Stopped? {
      return [];
    }
    var back := BackToPoll(s.task);
    ComesBack(s);
    OneStep(Run(s, back), SeeShutdown);
    RunAppend(s, back, [SeeShutdown]);
    return back + [SeeShutdown];
  }

  /** And then the handle can be dropped. */
  lemma CanClose(s: Server) returns (actions: seq<Action>)
    requires Ok(s) && Heard(s)
    ensures CanRun(s, actions) && SendSignal !in actions
    ensures Closed(Run(s, actions)) && s.conns <= Run(s, actions).conns
  {
    actions := CanStop(s);
    if s.handle {
      OneStep(Run(s, actions), DropHandle);
      RunAppend(s, actions, [DropHandle]);
      actions := actions + [DropHandle];
    }
  }

  /** In every state of every run, a running connection can be interrupted without a further signal
      exactly when a signal was sent that the accept task can see, be it before or after the connection
      subscribed: a later connection is interrupted when the last sender goes. */
  lemma InterruptedIff(s: Server, c: nat)
    requires Ok(s) && c < |s.conns| && s.conns[c].Running?
    ensures CanBeInterrupted(s, c) <==> Heard(s)
  {
    if Heard(s) {
      var actions := CanClose(s);
      var last: seq<Action> := [Interrupted(c)];
      OneStep(Run(s, actions), Interrupted(c));
      RunAppend(s, actions, last);
      assert (actions + last)[|actions|] == Interrupted(c);
    } else {
      forall actions | CanRun(s, actions) && SendSignal !in actions
        ensures Interrupted(c) !in actions
      {
        NotInterrupted(s, actions, c);
      }
    }
  }

  lemma FirstStep(s: Server, a: Action, rest: seq<Action>)
    requires Enabled(s, a) && CanRun(Apply(s, a), rest)
    ensures CanRun(s, [a] + rest) && Run(s, [a] + rest) == Run(Apply(s, a), rest)
  {
    assert ([a] + rest)[1..] == rest;
  }

  /** One more connection is accepted after the signal, and then the loop stops. */
  const LATE: seq<Action> := [AcceptReady, Subscribe, CountIn, Spawn, SeeShutdown]

  /** A connection that was waiting when the signal came subscribes too late to see it. It goes on while
      somebody holds the handle, and can be interrupted as soon as the handle is gone. */
  lemma LateConnection(s: Server)
    requires s.task.PollAccept? && Heard(s) && s.handle
    ensures CanRun(s, LATE)
    ensures var t := Run(s, LATE);
            && t.task.Stopped? && t.handle && t.conns == s.conns + [Running(s.signals)] && t.signals == s.signals
            && !Enabled(t, Interrupted(|s.conns|))
            && Enabled(Apply(t, DropHandle), Interrupted(|s.conns|))
  {
    var s1 := Apply(s, AcceptReady);
    var s2 := Apply(s1, Subscribe);
    var s3 := Apply(s2, CountIn);
    var s4 := Apply(s3, Spawn);
    OneStep(s4, SeeShutdown);
    FirstStep(s3, Spawn, [SeeShutdown]);
    var a3: seq<Action> := [Spawn] + [SeeShutdown];
    FirstStep(s2, CountIn, a3);
    FirstStep(s1, Subscribe, [CountIn] + a3);
    FirstStep(s, AcceptReady, [Subscribe] + ([CountIn] + a3));
    assert LATE == [AcceptReady] + ([Subscribe] + ([CountIn] + a3));
  }

  /** Every signal, also the one of `stop_accepting`, can interrupt every connection that is running. */
  lemma SignalInterruptsAll(s: Server, c: nat)
    requires Ok(s) && s.handle && c < |s.conns| && s.conns[c].Running?
    ensures Enabled(Apply(s, SendSignal), Interrupted(c))
    ensures CanBeInterrupted(Apply(s, SendSignal), c)
  {
    var t := Apply(s, SendSignal);
    OneStep(t, Interrupted(c));
    assert Interrupted(c) in [Interrupted(c)] && SendSignal !in [Interrupted(c)];
  }

  /** A signal sent before the accept task first runs is lost: any number of connections is accepted
      after it. */
  lemma EarlySignalIsLost(n: nat)
    ensures var actions := [SendSignal, Start] + Rounds(n);
            && CanRun(INITIAL, actions)
            && Run(INITIAL, actions).signals == 1
            && Run(INITIAL, actions).accepted == n
            && !Run(INITIAL, actions).task.Stopped?
  {
    var actions := [SendSignal, Start] + Rounds(n);
    var s1 := Apply(INITIAL, SendSignal);
    var s2 := Apply(s1, Start);
    RoundsRun(s2, n);
    assert actions[1..][1..] == Rounds(n);
    assert CanRun(s1, actions[1..]) && Run(s1, actions[1..]) == Run(s2, Rounds(n));
  }
}
