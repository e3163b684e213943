/** After the interrupt the monitor runs dry: every thread has a bounded number of steps
    left, and once shutdown has woken the workers, nothing but an acceptor asleep on a
    full queue can stay behind. */
module MonitorDrain {
  import opened Wrappers
  import opened Ring
  import opened Monitor
  import opened MonitorSafety
  import MonitorWakeups
  import opened MonitorRuns

  const LONGEST_WAY: nat := 11

  /** Steps a thread has left at most, once the flag is set. */
  function Way(pc: Pc): (n: nat)
    ensures n <= LONGEST_WAY
  {
    match pc
    case WAbout => 8
    case WAsleep => 7
    case WEnter => 6
    case WWoken => 6
    case WLoop(_) => 5
    case WTest => 4
    case WTake(_) => 4
    case WCheck(_) => 3
    case WSignal(_) => 3
    case WLeave(_) => 2
    case WBack(_) => 1
    case WTop => 1
    case WBusy => 2
    case WExit => 0
    case AAbout(_) => 11
    case AAsleep(_) => 10
    case AAccept => 10
    case AWoken(_) => 9
    case AEnter(_) => 9
    case ALoop(_, _) => 8
    case ATest(_) => 7
    case APut(_, _) => 7
    case ACheck(_, _) => 6
    case ASignal => 6
    case ALeave => 5
    case ATop => 4
    case SEnter => 3
    case SBroadcast => 2
    case SLeave => 1
    case SDone => 0
  }

  function Ways(pcs: seq<Pc>): nat {
    if pcs == [] then 0 else Way(pcs[0]) + Ways(pcs[1..])
  }

  /** Nobody is further from its end. */
  ghost predicate NoFurther(a: seq<Pc>, b: seq<Pc>) {
    |a| == |b| && forall u :: 0 <= u < |a| ==> Way(b[u]) <= Way(a[u])
  }

  lemma {:induction false} WaysFall(a: seq<Pc>, b: seq<Pc>)
    requires NoFurther(a, b)
    ensures Ways(b) <= Ways(a)
    ensures (exists t :: 0 <= t < |a| && Way(b[t]) < Way(a[t])) ==> Ways(b) < Ways(a)
    decreases |a|
  {
    hide Way;
    if a != [] {
      var c, d := a[1..], b[1..];
      assert forall u :: 0 <= u < |c| ==> c[u] == a[u + 1] && d[u] == b[u + 1];
      WaysFall(c, d);
      if t :| 0 <= t < |a| && Way(b[t]) < Way(a[t]) {
        if t > 0 {
          assert Way(d[t - 1]) < Way(c[t - 1]);
        }
      }
    }
  }

  lemma {:induction false} WaysBounded(pcs: seq<Pc>, most: nat)
    requires forall t :: 0 <= t < |pcs| ==> Way(pcs[t]) <= most
    ensures Ways(pcs) <= most * |pcs|
    decreases |pcs|
  {
    hide Way;
    if pcs != [] {
      assert forall t :: 0 <= t < |pcs[1..]| ==> pcs[1..][t] == pcs[t + 1];
      WaysBounded(pcs[1..], most);
    }
  }

  /** The mover comes closer to its end, and nobody is set back. */
  ghost predicate Closer(s: State, s1: State, t: nat) {
    t < |s.pcs| && NoFurther(s.pcs, s1.pcs) && Way(s1.pcs[t]) < Way(s.pcs[t])
  }

  lemma WorkerCloser(s: State, t: nat, wake: Option<nat>)
    requires Enabled(s, Act(t, wake)) && IsWorker(s.pcs[t]) && s.sigint
    ensures Closer(s, ActWorker(s, t, wake), t)
  {
    hide Consistent, Take, Next, WakesWorker;
  }

  lemma AcceptorCloser(s: State, t: nat, wake: Option<nat>)
    requires Enabled(s, Act(t, wake)) && IsAcceptor(s.pcs[t]) && s.sigint
    ensures Closer(s, ActAcceptor(s, t, wake), t)
  {
    hide Consistent, Put, WakesAcceptor;
  }

  lemma ShutdownCloser(s: State, t: nat, wake: Option<nat>)
    requires Enabled(s, Act(t, wake)) && !IsWorker(s.pcs[t]) && !IsAcceptor(s.pcs[t])
    ensures Closer(s, ActShutdown(s, t, wake), t)
  {
    hide Consistent, WakesWorker, WakesAcceptor;
  }

  lemma StepCloser(s: State, l: Label)
    requires s.sigint && Enabled(s, l) && !l.Interrupt?
    ensures Closer(s, Apply(s, l), l.t) && Apply(s, l).sigint
  {
    hide ActWorker, ActAcceptor, ActShutdown;
    MonitorWakeups.InterruptLasts(s, l);
    if l.Act? {
      if IsWorker(s.pcs[l.t]) {
        WorkerCloser(s, l.t, l.wake);
      } else if IsAcceptor(s.pcs[l.t]) {
        AcceptorCloser(s, l.t, l.wake);
      } else {
        ShutdownCloser(s, l.t, l.wake);
      }
    }
  }

  /** Steps of threads, without repeated interrupts. */
  function Moves(run: seq<Label>): nat {
    if run == [] then 0 else (if run[0].Interrupt? then 0 else 1) + Moves(run[1..])
  }

  /** Every step after the interrupt uses up a step of a bounded supply. */
  lemma {:induction false} DrainsStepwise(s: State, run: seq<Label>)
    requires s.sigint && Possible(s, run)
    ensures After(s, run).sigint
    ensures Moves(run) + Ways(After(s, run).pcs) <= Ways(s.pcs)
    decreases |run|
  {
    hide Apply, Enabled, Way;
    if run != [] {
      var l, s1 := run[0], Apply(s, run[0]);
      if l.Interrupt? {
        InterruptMovesNobody(s);
      } else {
        StepCloser(s, l);
        WaysFall(s.pcs, s1.pcs);
      }
      DrainsStepwise(s1, run[1..]);
    }
  }

  lemma InterruptMovesNobody(s: State)
    ensures Apply(s, Interrupt).pcs == s.pcs && Apply(s, Interrupt).sigint
  {
  }

  // ---------------------------------------------------------------- nobody is stuck

  /** Whom a signal may wake: some acceptor asleep, or nobody if there is none. */
  lemma PickAcceptor(s: State) returns (wake: Option<nat>)
    ensures WakesAcceptor(s, wake)
  {
    if SomeAcceptorAsleep(s) {
      var u :| 0 <= u < |s.pcs| && s.pcs[u].AAsleep?;
      wake := Some(u);
    } else {
      wake := None;
    }
  }

  lemma PickWorker(s: State) returns (wake: Option<nat>)
    ensures WakesWorker(s, wake)
  {
    if SomeWorkerAsleep(s) {
      var u :| 0 <= u < |s.pcs| && s.pcs[u].WAsleep?;
      wake := Some(u);
    } else {
      wake := None;
    }
  }

  /** Where a thread stays until somebody else moves it: asleep, or in a call that waits
      for the outside. */
  predicate Waits(pc: Pc) {
    pc.AAsleep? || pc.WAsleep? || pc.AAccept? || pc.WBusy?
  }

  /** A thread that is not at its end, waiting, or kept out by the mutex can go on. */
  lemma CanGoOn(s: State, t: nat) returns (wake: Option<nat>)
    requires t < |s.pcs| && Consistent(s.ring) && Knows(s, s.pcs[t])
    requires Way(s.pcs[t]) > 0 && !Waits(s.pcs[t])
    requires s.holder == None || Holding(s.pcs[t])
    ensures Enabled(s, Act(t, wake))
  {
    hide Consistent, WakesWorker, WakesAcceptor;
    if s.pcs[t].WSignal? {
      wake := PickAcceptor(s);
    } else {
      wake := PickWorker(s);
    }
  }

  lemma HolderHasWay(pc: Pc)
    requires Holding(pc)
    ensures Way(pc) > 0 && !Waits(pc)
  {
  }

  /** The thread inside the monitor can always go on. */
  lemma HolderGoesOn(s: State) returns (wake: Option<nat>)
    requires MutexOk(s) && PlacesOk(s) && s.holder.Some?
    ensures s.holder.value < |s.pcs| && Holding(s.pcs[s.holder.value])
    ensures Enabled(s, Act(s.holder.value, wake))
  {
    hide Enabled, Way, Knows, Consistent, Holding;
    var u := s.holder.value;
    assert Holding(s.pcs[u]) && Knows(s, s.pcs[u]);
    HolderHasWay(s.pcs[u]);
    wake := CanGoOn(s, u);
  }

  ghost predicate Stuck(s: State) {
    forall u, wake :: !Enabled(s, Act(u, wake))
  }

  /** Where a thread may be when nobody can go on. */
  predicate AtRest(pc: Pc) {
    pc.WExit? || pc.SDone? || Waits(pc)
  }

  lemma RestOrWay(pc: Pc)
    requires Way(pc) == 0
    ensures AtRest(pc)
  {
  }

  /** Nobody is kept out by the mutex for good: when no thread can go on, it is free and
      all are at their ends, asleep or waiting for the outside. */
  lemma StuckIsAtRest(s: State, t: nat)
    requires Invariant(s) && Stuck(s) && t < |s.pcs|
    ensures s.holder == None && AtRest(s.pcs[t])
  {
    hide Enabled, Way, Consistent, Knows, Holding;
    if s.holder.Some? {
      var wake := HolderGoesOn(s);
      assert false;
    } else if Way(s.pcs[t]) == 0 {
      RestOrWay(s.pcs[t]);
    } else if !Waits(s.pcs[t]) {
      assert Knows(s, s.pcs[t]);
      var wake := CanGoOn(s, t);
      assert false;
    }
  }

  /** Shutdown drains. From the moment `queue_shutdown` has broadcast with the flag set,
      at most ten steps per thread are taken in all, however they interleave; and
      when none can go on by itself, every worker has left its loop or is busy with a
      connection it got before, and every acceptor has finished, except those in `accept`
      or asleep on a full queue. */
  lemma ShutdownDrains(s: State, run: seq<Label>)
    requires Invariant(s) && s.down && Possible(s, run)
    ensures var z := After(s, run);
            && Moves(run) + Ways(z.pcs) <= Ways(s.pcs) <= 10 * |s.pcs|
            && (Stuck(z) ==> forall t :: 0 <= t < |z.pcs| ==>
                  AtRest(z.pcs[t]) && !z.pcs[t].WAsleep?)
  {
    hide Apply, Enabled, Possible, Stuck;
    DrainsStepwise(s, run);
    QuietWays(s);
    RunInvariant(s, run);
    ShutdownIsFinal(s, run);
    var z := After(s, run);
    if Stuck(z) {
      forall t | 0 <= t < |z.pcs|
        ensures AtRest(z.pcs[t]) && !z.pcs[t].WAsleep?
      {
        StuckIsAtRest(z, t);
      }
    }
  }

  lemma QuietWays(s: State)
    requires DownOk(s) && s.down
    ensures Ways(s.pcs) <= 10 * |s.pcs|
  {
    forall t | 0 <= t < |s.pcs|
      ensures Way(s.pcs[t]) <= 10
    {
      assert Quiet(s.pcs[t]);
    }
    WaysBounded(s.pcs, 10);
  }
}
