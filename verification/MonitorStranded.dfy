/** What shutdown reaches and what it misses: an acceptor that sleeps through the
    interrupt, workers that sleep through a shutdown without one, and the exact
    conditions under which everybody gets out. */
module MonitorStranded {
  import opened Wrappers
  import opened Ring
  import opened Monitor
  import opened MonitorSafety
  import MonitorWakeups
  import opened MonitorRuns
  import opened MonitorDrain

  // ---------------------------------------------------------------- a stranded acceptor

  /** The flag is set, acceptor `a` sleeps on a full queue or is past its last look at
      the flag on the way there, and no worker is past its own with a connection to take. */
  ghost predicate Stranded(s: State, a: nat) {
    && s.sigint && a < |s.pcs| && (s.pcs[a].AAsleep? || s.pcs[a].AAbout?)
    && forall t :: 0 <= t < |s.pcs| ==> !s.pcs[t].WTake? && !s.pcs[t].WSignal?
  }

  /** An acceptor about to sleep holds the mutex, so nobody is about to wake it. */
  lemma AboutIsStranded(s: State, a: nat)
    requires MutexOk(s) && s.sigint && a < |s.pcs| && s.pcs[a].AAbout?
    ensures Stranded(s, a)
  {
    assert s.holder == Some(a);
    forall t | 0 <= t < |s.pcs|
      ensures !s.pcs[t].WTake? && !s.pcs[t].WSignal?
    {
      assert Holding(s.pcs[t]) <==> s.holder == Some(t);
    }
  }

  /** Nothing but a spurious wakeup gets it out again, whatever the others do. */
  lemma {:induction false} StrandedForGood(s: State, a: nat, run: seq<Label>)
    requires Stranded(s, a) && Possible(s, run)
    requires forall i :: 0 <= i < |run| ==> run[i] != Spurious(a)
    ensures Stranded(After(s, run), a)
    decreases |run|
  {
    hide Apply, Enabled;
    if run != [] {
      StrandedStep(s, a, run[0]);
      StrandedForGood(Apply(s, run[0]), a, run[1..]);
    }
  }

  lemma StrandedStep(s: State, a: nat, l: Label)
    requires Stranded(s, a) && Enabled(s, l) && l != Spurious(a)
    ensures Stranded(Apply(s, l), a)
  {
    hide ActWorker, ActAcceptor, ActShutdown;
    if l.Act? {
      assert !s.pcs[l.t].WTake? && !s.pcs[l.t].WSignal?;
      if IsWorker(s.pcs[l.t]) {
        WorkerStrands(s, a, l.t, l.wake);
      } else if IsAcceptor(s.pcs[l.t]) {
        AcceptorStrands(s, a, l.t, l.wake);
      } else {
        ShutdownStrands(s, a, l.t, l.wake);
      }
    }
  }

  lemma WorkerStrands(s: State, a: nat, t: nat, wake: Option<nat>)
    requires Stranded(s, a) && Enabled(s, Act(t, wake)) && IsWorker(s.pcs[t])
    ensures Stranded(ActWorker(s, t, wake), a)
  {
    hide Consistent, Take, Next;
    assert !s.pcs[t].WTake? && !s.pcs[t].WSignal?;
  }

  lemma AcceptorStrands(s: State, a: nat, t: nat, wake: Option<nat>)
    requires Stranded(s, a) && Enabled(s, Act(t, wake)) && IsAcceptor(s.pcs[t])
    ensures Stranded(ActAcceptor(s, t, wake), a)
  {
    hide Consistent, Put;
  }

  lemma ShutdownStrands(s: State, a: nat, t: nat, wake: Option<nat>)
    requires Stranded(s, a) && Enabled(s, Act(t, wake)) && !IsWorker(s.pcs[t]) && !IsAcceptor(s.pcs[t])
    ensures Stranded(ActShutdown(s, t, wake), a)
  {
  }

  // ---------------------------------------------------------------- reaching queue_shutdown

  /** A run without a spurious wakeup of `a` that brings it to the call. */
  ghost predicate Reaches(s: State, a: nat, run: seq<Label>) {
    && Possible(s, run)
    && (forall i :: 0 <= i < |run| ==> run[i] != Spurious(a))
    && a < |After(s, run).pcs| && After(s, run).pcs[a].SEnter?
  }

  /** On the way to the call and not stranded. */
  ghost predicate Going(s: State, a: nat) {
    s.sigint && a < |s.pcs| && IsAcceptor(s.pcs[a]) && !Stranded(s, a)
  }

  /** With the flag set, an acceptor that moves does not go to sleep any more. */
  lemma AcceptorGoesOn(s: State, a: nat, wake: Option<nat>)
    requires s.sigint && Enabled(s, Act(a, wake)) && IsAcceptor(s.pcs[a]) && !s.pcs[a].AAbout?
    ensures var s1 := ActAcceptor(s, a, wake);
            && s1.sigint && a < |s1.pcs| && (IsAcceptor(s1.pcs[a]) || s1.pcs[a].SEnter?)
            && !s1.pcs[a].AAsleep? && !s1.pcs[a].AAbout? && !s1.pcs[a].AAccept?
  {
    hide Consistent, Put, WakesAcceptor;
  }

  /** Some step brings it closer: its own, that of the thread it waits for at the mutex,
      that of the worker about to signal it, or, in `accept`, the outside. */
  lemma NextStep(s: State, a: nat) returns (l: Label)
    requires Invariant(s) && Going(s, a)
    ensures Enabled(s, l) && (if s.pcs[a].AAccept? then l == Fails(a) else l.Act?)
    ensures a < |Apply(s, l).pcs| && !Apply(s, l).pcs[a].AAccept?
    ensures Going(Apply(s, l), a) || Apply(s, l).pcs[a].SEnter?
  {
    hide ActAcceptor, Consistent, Way, FifoOk, HandedOk, DownOk, MonitorWakeups.Covered;
    if s.pcs[a].AAbout? {
      AboutIsStranded(s, a);
    }
    if s.pcs[a].AAccept? {
      l := Fails(a);
    } else if s.pcs[a].AAsleep? {
      var t :| 0 <= t < |s.pcs| && (s.pcs[t].WTake? || s.pcs[t].WSignal?);
      l := ToTheRescue(s, a, t);
    } else if s.holder == None || s.holder == Some(a) {
      hide Enabled;
      AcceptorHasWay(s.pcs[a]);
      assert Knows(s, s.pcs[a]) && (Holding(s.pcs[a]) <==> s.holder == Some(a));
      var wake := CanGoOn(s, a);
      l := Act(a, wake);
      AcceptorGoesOn(s, a, wake);
      AppliesAcceptor(s, a, wake);
    } else {
      l := HolderMakesWay(s, a);
    }
  }

  lemma AcceptorHasWay(pc: Pc)
    requires IsAcceptor(pc)
    ensures Way(pc) > 0 && !pc.WAsleep? && !pc.WBusy?
  {
  }

  lemma AppliesAcceptor(s: State, a: nat, wake: Option<nat>)
    requires Enabled(s, Act(a, wake)) && IsAcceptor(s.pcs[a])
    ensures Apply(s, Act(a, wake)) == ActAcceptor(s, a, wake)
  {
    hide ActAcceptor;
  }

  lemma ToTheRescue(s: State, a: nat, t: nat) returns (l: Label)
    requires PlacesOk(s) && Going(s, a) && s.pcs[a].AAsleep?
    requires t < |s.pcs| && (s.pcs[t].WTake? || s.pcs[t].WSignal?)
    ensures l.Act? && Enabled(s, l) && Going(Apply(s, l), a) && !Apply(s, l).pcs[a].AAccept?
  {
    hide Consistent, Take, Next;
    assert Knows(s, s.pcs[t]);
    if s.pcs[t].WSignal? {
      l := Act(t, Some(a));
      assert Apply(s, l).pcs[a].AWoken?;
    } else {
      l := Act(t, None);
      assert Apply(s, l).pcs[t].WSignal?;
    }
  }

  lemma HolderMakesWay(s: State, a: nat) returns (l: Label)
    requires MutexOk(s) && PlacesOk(s) && Going(s, a)
    requires !s.pcs[a].AAsleep? && !s.pcs[a].AAbout? && !s.pcs[a].AAccept?
    requires s.holder != None && s.holder != Some(a)
    ensures l.Act? && Enabled(s, l) && Going(Apply(s, l), a) && !Apply(s, l).pcs[a].AAccept?
  {
    hide Apply, Enabled, Consistent, Knows;
    var u := s.holder.value;
    var wake := HolderGoesOn(s);
    l := Act(u, wake);
    StepMoves(s, l);
    StepCloser(s, l);
    assert Apply(s, l).pcs[a] == s.pcs[a];
  }

  lemma {:induction false} ReachShutdown(s: State, a: nat) returns (run: seq<Label>)
    requires Invariant(s) && Going(s, a)
    ensures Reaches(s, a, run)
    ensures !s.pcs[a].AAccept? ==> forall i :: 0 <= i < |run| ==> run[i].Act?
    decreases Ways(s.pcs)
  {
    hide Apply, Enabled, Invariant, Going, Way;
    var l := NextStep(s, a);
    var s1 := Apply(s, l);
    if s1.pcs[a].SEnter? {
      run := [l];
      OneStep(s, l);
    } else {
      GoingOn(s, a, l);
      var more := ReachShutdown(s1, a);
      run := [l] + more;
      assert run[1..] == more;
    }
  }

  lemma OneStep(s: State, l: Label)
    requires Enabled(s, l)
    ensures Possible(s, [l]) && After(s, [l]) == Apply(s, l)
  {
    hide Apply, Enabled;
    assert [l][1..] == [];
  }

  lemma GoingOn(s: State, a: nat, l: Label)
    requires Invariant(s) && Going(s, a) && !l.Interrupt? && Enabled(s, l)
    ensures Invariant(Apply(s, l)) && Ways(Apply(s, l).pcs) < Ways(s.pcs)
  {
    hide Apply, Enabled, Invariant, Way;
    StepInvariant(s, l);
    StepCloser(s, l);
    WaysFall(s.pcs, Apply(s, l).pcs);
  }

  /** An acceptor in `accept` stays there while the outside does nothing. */
  lemma {:induction false} StaysInAccept(s: State, a: nat, run: seq<Label>)
    requires MutexOk(s) && a < |s.pcs| && s.pcs[a].AAccept? && Possible(s, run)
    requires forall i :: 0 <= i < |run| ==> run[i].Act?
    ensures a < |After(s, run).pcs| && After(s, run).pcs[a].AAccept?
    decreases |run|
  {
    hide Apply, Enabled, MutexOk;
    if run != [] {
      NotInAccept(s, run[0]);
      StepMoves(s, run[0]);
      MutexStep(s, run[0]);
      StaysInAccept(Apply(s, run[0]), a, run[1..]);
    }
  }

  lemma NotInAccept(s: State, l: Label)
    requires Enabled(s, l) && l.Act?
    ensures l.t < |s.pcs| && !s.pcs[l.t].AAccept?
  {
    hide Consistent, WakesWorker, WakesAcceptor;
  }

  /** Exactly when, after the interrupt, an acceptor can get to `queue_shutdown` without a
      spurious wakeup: it has not passed its last look at the flag on the way to sleep,
      and if it is asleep already, a worker is past its own with a connection to take.
      For the threads to bring it there by themselves it must not be in `accept` either. */
  lemma ShutdownReachedExactly(s: State, a: nat)
    requires Invariant(s) && s.sigint && a < |s.pcs| && IsAcceptor(s.pcs[a])
    ensures (exists run :: Reaches(s, a, run)) <==>
            && !s.pcs[a].AAbout?
            && (s.pcs[a].AAsleep? ==> exists t :: 0 <= t < |s.pcs| && (s.pcs[t].WTake? || s.pcs[t].WSignal?))
    ensures (exists run: seq<Label> :: Reaches(s, a, run) && forall i :: 0 <= i < |run| ==> run[i].Act?) <==>
            && !s.pcs[a].AAbout? && !s.pcs[a].AAccept?
            && (s.pcs[a].AAsleep? ==> exists t :: 0 <= t < |s.pcs| && (s.pcs[t].WTake? || s.pcs[t].WSignal?))
  {
    hide Apply, Enabled, PlacesOk, FifoOk, HandedOk, DownOk, MonitorWakeups.Covered;
    if s.pcs[a].AAbout? {
      AboutIsStranded(s, a);
    }
    if Stranded(s, a) {
      forall run | Possible(s, run) && forall i :: 0 <= i < |run| ==> run[i] != Spurious(a)
        ensures !Reaches(s, a, run)
      {
        StrandedForGood(s, a, run);
      }
    } else {
      var run := ReachShutdown(s, a);
      if s.pcs[a].AAccept? {
        forall alone: seq<Label> | Possible(s, alone) && forall i :: 0 <= i < |alone| ==> alone[i].Act?
          ensures !Reaches(s, a, alone)
        {
          StaysInAccept(s, a, alone);
        }
      }
    }
  }

  // ---------------------------------------------------------------- the server's own case: one acceptor

  /** Before its broadcast. */
  predicate Underway(pc: Pc) {
    IsAcceptor(pc) || pc.SEnter? || pc.SBroadcast?
  }

  /** All other threads are workers. */
  ghost predicate OnlyAcceptor(s: State, a: nat) {
    a < |s.pcs| && forall t :: 0 <= t < |s.pcs| && t != a ==> IsWorker(s.pcs[t])
  }

  /** `a` is the only acceptor, and it will broadcast, or has done so, with the flag set. */
  ghost predicate Coming(s: State, a: nat) {
    && s.sigint && OnlyAcceptor(s, a)
    && (|| (Underway(s.pcs[a]) && !s.pcs[a].AAccept? && !Stranded(s, a))
        || (s.down && (s.pcs[a].SLeave? || s.pcs[a].SDone?)))
  }

  lemma ComingStep(s: State, a: nat, l: Label)
    requires Invariant(s) && Coming(s, a) && Enabled(s, l)
    ensures Coming(Apply(s, l), a)
  {
    hide ActWorker, ActAcceptor, FifoOk, HandedOk, MonitorWakeups.Covered, PlacesOk;
    if a < |s.pcs| && s.pcs[a].AAbout? {
      AboutIsStranded(s, a);
    }
    if l.Act? {
      if l.t == a {
        if IsAcceptor(s.pcs[a]) {
          AcceptorGoesOn(s, a, l.wake);
          OthersWork(s, a, l);
        } else {
          ShutdownGoesOn(s, a, l.wake);
        }
      } else {
        WorkerLetsCome(s, a, l.t, l.wake);
      }
    } else if !l.Interrupt? {
      OutsideLetsCome(s, a, l);
    }
  }

  lemma OthersWork(s: State, a: nat, l: Label)
    requires MutexOk(s) && Coming(s, a) && Enabled(s, l) && l.Act? && l.t == a
    ensures forall t :: 0 <= t < |Apply(s, l).pcs| && t != a ==> IsWorker(Apply(s, l).pcs[t])
  {
    hide Apply, Enabled, Stranded;
    StepMoves(s, l);
    var s1 := Apply(s, l);
    forall t | 0 <= t < |s1.pcs| && t != a
      ensures IsWorker(s1.pcs[t])
    {
      assert IsWorker(s.pcs[t]);
    }
  }

  lemma ShutdownGoesOn(s: State, a: nat, wake: Option<nat>)
    requires Coming(s, a) && Enabled(s, Act(a, wake)) && !IsAcceptor(s.pcs[a])
    ensures Coming(Apply(s, Act(a, wake)), a)
  {
  }

  lemma OutsideLetsCome(s: State, a: nat, l: Label)
    requires Coming(s, a) && Enabled(s, l) && !l.Act? && !l.Interrupt? && !s.pcs[a].AAbout?
    ensures Coming(Apply(s, l), a)
  {
    hide ActWorker, ActAcceptor, ActShutdown;
    var s1 := Apply(s, l);
    assert l.t != a ==> IsWorker(s.pcs[l.t]);
    if s1.pcs[a].AAsleep? {
      var w :| 0 <= w < |s.pcs| && (s.pcs[w].WTake? || s.pcs[w].WSignal?);
      assert s1.pcs[w] == s.pcs[w];
    }
  }

  lemma WorkerLetsCome(s: State, a: nat, t: nat, wake: Option<nat>)
    requires Coming(s, a) && Enabled(s, Act(t, wake)) && t != a && !s.pcs[a].AAbout?
    ensures Coming(Apply(s, Act(t, wake)), a)
  {
    hide Consistent, Take, Next, WakesWorker;
    assert IsWorker(s.pcs[t]);
    var s1 := Apply(s, Act(t, wake));
    WorkerStays(s, a, t, wake);
    if s1.pcs[a].AAsleep? {
      var w :| 0 <= w < |s.pcs| && (s.pcs[w].WTake? || s.pcs[w].WSignal?);
      if w == t && s.pcs[t].WSignal? {
        SignalFindsOnly(s, a, wake);
      }
      assert s1.pcs[w].WTake? || s1.pcs[w].WSignal?;
    }
  }

  /** A signal for room cannot miss the only acceptor. */
  lemma SignalFindsOnly(s: State, a: nat, wake: Option<nat>)
    requires Coming(s, a) && s.pcs[a].AAsleep? && WakesAcceptor(s, wake)
    ensures wake == Some(a)
  {
    hide Stranded;
    assert SomeAcceptorAsleep(s);
  }

  lemma WorkerStays(s: State, a: nat, t: nat, wake: Option<nat>)
    requires Coming(s, a) && Enabled(s, Act(t, wake)) && t != a && IsWorker(s.pcs[t])
    ensures var s1 := ActWorker(s, t, wake);
            && s1.sigint && s1.down == s.down && |s1.pcs| == |s.pcs|
            && (forall u :: 0 <= u < |s1.pcs| && u != a ==> IsWorker(s1.pcs[u]))
            && (s1.pcs[a] == s.pcs[a] || s1.pcs[a].AWoken?)
  {
    hide Consistent, Take, Next, WakesWorker, Stranded, Underway;
  }

  lemma {:induction false} ComingRun(s: State, a: nat, run: seq<Label>)
    requires Invariant(s) && Coming(s, a) && Possible(s, run)
    ensures Coming(After(s, run), a)
    decreases |run|
  {
    hide Apply, Enabled, Invariant, Coming;
    if run != [] {
      ComingStep(s, a, run[0]);
      StepInvariant(s, run[0]);
      ComingRun(Apply(s, run[0]), a, run[1..]);
    }
  }

  /** The acceptor is done, and every worker is out of its loop or still busy with a
      connection it got before. */
  ghost predicate Completed(s: State, a: nat)
    requires a < |s.pcs|
  {
    && s.pcs[a].SDone?
    && forall t :: 0 <= t < |s.pcs| && t != a ==> s.pcs[t].WExit? || s.pcs[t].WBusy?
  }

  /** With one acceptor, as in the server, which is neither stranded nor in `accept` when
      the interrupt has come: every run has a bounded number of steps, and every run that
      cannot go on by itself has completed the shutdown. */
  lemma ShutdownCompletes(s: State, a: nat, run: seq<Label>)
    requires Invariant(s) && Coming(s, a) && Possible(s, run)
    ensures var z := After(s, run);
            && Moves(run) + Ways(z.pcs) <= Ways(s.pcs) <= LONGEST_WAY * |s.pcs|
            && a < |z.pcs|
            && (Stuck(z) ==> Completed(z, a))
  {
    hide Apply, Enabled, Possible, Stuck, MutexOk, PlacesOk, FifoOk, HandedOk, MonitorWakeups.Covered;
    DrainsStepwise(s, run);
    WaysBounded(s.pcs, LONGEST_WAY);
    RunInvariant(s, run);
    ComingRun(s, a, run);
    var z := After(s, run);
    if Stuck(z) {
      forall t | 0 <= t < |z.pcs|
        ensures AtRest(z.pcs[t])
      {
        StuckIsAtRest(z, t);
      }
      assert !z.down ==> Stranded(z, a);
      assert forall t :: 0 <= t < |z.pcs| ==> Quiet(z.pcs[t]);
    }
  }

  /** A run in which the outside does nothing, and which cannot go on although the shutdown
      is not complete. */
  ghost predicate Hangs(s: State, a: nat, run: seq<Label>) {
    && Possible(s, run) && (forall i :: 0 <= i < |run| ==> run[i].Act?)
    && a < |After(s, run).pcs| && Stuck(After(s, run)) && !Completed(After(s, run), a)
  }

  /** Exactly when the server can hang after the interrupt: its acceptor has passed its last
      look at the flag and is in `accept`, or is stranded at a full queue. */
  lemma HangsExactly(s: State, a: nat)
    requires Invariant(s) && s.sigint && OnlyAcceptor(s, a) && Underway(s.pcs[a])
    ensures (exists run :: Hangs(s, a, run)) <==> s.pcs[a].AAccept? || Stranded(s, a)
  {
    hide Apply, Enabled, Possible, Stuck, PlacesOk, FifoOk, HandedOk, DownOk, MonitorWakeups.Covered;
    if s.pcs[a].AAccept? || Stranded(s, a) {
      var run := RunOut(s);
      if s.pcs[a].AAccept? {
        StaysInAccept(s, a, run);
      } else {
        StrandedForGood(s, a, run);
      }
      assert Hangs(s, a, run);
    } else {
      forall run | Hangs(s, a, run)
        ensures false
      {
        ShutdownCompletes(s, a, run);
      }
    }
  }

  // ---------------------------------------------------------------- a shutdown without the interrupt

  /** All acceptors are through with `queue_shutdown`. */
  predicate Finished(s: State) {
    forall t :: 0 <= t < |s.pcs| ==> IsWorker(s.pcs[t]) || s.pcs[t].SLeave? || s.pcs[t].SDone?
  }

  /** Nobody is left to wake worker `t`, which sleeps or is about to. */
  ghost predicate Missed(s: State, t: nat) {
    s.sigint && Finished(s) && t < |s.pcs| && Drowsy(s.pcs[t])
  }

  predicate Drowsy(pc: Pc) {
    pc.WAsleep? || pc.WAbout?
  }

  /** With the acceptors gone, a worker moves alone; none of the awake goes to sleep. */
  lemma WorkerAlone(s: State, t: nat, wake: Option<nat>)
    requires Finished(s) && s.sigint && Enabled(s, Act(t, wake)) && IsWorker(s.pcs[t])
    ensures var s1 := ActWorker(s, t, wake);
            && s1.sigint && |s1.pcs| == |s.pcs| && s1.pcs == s.pcs[t := s1.pcs[t]]
            && IsWorker(s1.pcs[t]) && (Drowsy(s1.pcs[t]) <==> Drowsy(s.pcs[t]))
  {
    hide Consistent, Take, Next, WakesWorker;
  }

  lemma ShutdownAlone(s: State, t: nat, wake: Option<nat>)
    requires Finished(s) && s.sigint && Enabled(s, Act(t, wake)) && !IsWorker(s.pcs[t])
    ensures var s1 := Apply(s, Act(t, wake));
            s1.sigint && s1.pcs == s.pcs[t := SDone] && s.pcs[t].SLeave?
  {
    hide Consistent, WakesWorker, WakesAcceptor, ActWorker, ActAcceptor;
  }

  lemma FinishedStep(s: State, l: Label)
    requires Finished(s) && s.sigint && Enabled(s, l)
    ensures var s1 := Apply(s, l);
            && s1.sigint && |s1.pcs| == |s.pcs| && Finished(s1)
            && forall t :: 0 <= t < |s.pcs| && l != Spurious(t) ==> (Drowsy(s1.pcs[t]) <==> Drowsy(s.pcs[t]))
  {
    hide ActWorker, ActAcceptor, ActShutdown, Consistent, WakesWorker, WakesAcceptor;
    if l.Act? {
      if IsWorker(s.pcs[l.t]) {
        WorkerAlone(s, l.t, l.wake);
      } else {
        ShutdownAlone(s, l.t, l.wake);
      }
    }
  }

  lemma {:induction false} MissedForGood(s: State, t: nat, run: seq<Label>)
    requires Missed(s, t) && Possible(s, run)
    requires forall i :: 0 <= i < |run| ==> run[i] != Spurious(t)
    ensures Missed(After(s, run), t)
    decreases |run|
  {
    hide Apply, Enabled, Finished;
    if run != [] {
      FinishedStep(s, run[0]);
      MissedForGood(Apply(s, run[0]), t, run[1..]);
    }
  }

  lemma {:induction false} NoneMissed(s: State, run: seq<Label>)
    requires Finished(s) && s.sigint && Possible(s, run)
    requires forall t :: 0 <= t < |s.pcs| ==> !Drowsy(s.pcs[t])
    requires forall i :: 0 <= i < |run| ==> run[i].Act?
    ensures Finished(After(s, run))
    ensures forall t :: 0 <= t < |After(s, run).pcs| ==> !Drowsy(After(s, run).pcs[t])
    decreases |run|
  {
    hide Apply, Enabled, Finished;
    if run != [] {
      FinishedStep(s, run[0]);
      NoneMissed(Apply(s, run[0]), run[1..]);
    }
  }

  /** A run in which the outside does nothing, and which cannot go on although a worker is
      still in its loop and not busy: joining that worker never returns. */
  ghost predicate LeavesWorker(s: State, run: seq<Label>) {
    && Possible(s, run) && Stuck(After(s, run))
    && (forall i :: 0 <= i < |run| ==> run[i].Act?)
    && exists t :: && 0 <= t < |After(s, run).pcs| && IsWorker(After(s, run).pcs[t])
                   && !After(s, run).pcs[t].WExit? && !After(s, run).pcs[t].WBusy?
  }

  /** Every state with the flag set has a run that cannot go on. */
  lemma {:induction false} RunOut(s: State) returns (run: seq<Label>)
    requires s.sigint
    ensures Possible(s, run) && Stuck(After(s, run)) && forall i :: 0 <= i < |run| ==> run[i].Act?
    decreases Ways(s.pcs)
  {
    hide Apply, Enabled, Way;
    if Stuck(s) {
      run := [];
    } else {
      var u, wake :| Enabled(s, Act(u, wake));
      var l := Act(u, wake);
      StepCloser(s, l);
      WaysFall(s.pcs, Apply(s, l).pcs);
      var more := RunOut(Apply(s, l));
      run := [l] + more;
      assert run[1..] == more;
    }
  }

  /** Exactly when the workers get out although all acceptors are through with
      `queue_shutdown`, possibly before the interrupt: none sleeps or is about to. The
      broadcast must have come with the flag set. */
  lemma WorkersLeftExactly(s: State)
    requires Invariant(s) && s.sigint && Finished(s)
    ensures (exists run :: LeavesWorker(s, run)) <==>
            exists t :: 0 <= t < |s.pcs| && Drowsy(s.pcs[t])
    ensures s.down ==> !exists run :: LeavesWorker(s, run)
  {
    hide Apply, Enabled, MutexOk, PlacesOk, FifoOk, HandedOk, MonitorWakeups.Covered, Possible, Stuck;
    if t :| 0 <= t < |s.pcs| && Drowsy(s.pcs[t]) {
      var run := RunOut(s);
      MissedForGood(s, t, run);
      assert LeavesWorker(s, run);
    } else {
      forall run | LeavesWorker(s, run)
        ensures false
      {
        NoneMissed(s, run);
        RunInvariant(s, run);
        var z := After(s, run);
        var u :| 0 <= u < |z.pcs| && IsWorker(z.pcs[u]) && !z.pcs[u].WExit? && !z.pcs[u].WBusy?;
        StuckIsAtRest(z, u);
      }
    }
    if s.down {
      assert forall t :: 0 <= t < |s.pcs| ==> Quiet(s.pcs[t]);
    }
  }

  // ---------------------------------------------------------------- runs that hang

  /** An acceptor and a worker. */
  function Two(a: Pc, w: Pc, holder: Option<nat>, ring: Ring, pushed: seq<nat>, sigint: bool): State {
    State(ring, holder, [a, w], sigint, pushed, [], [], false)
  }

  lemma Prefixed(s: State, l: Label, s1: State, run: seq<Label>)
    requires Enabled(s, l) && Apply(s, l) == s1 && Possible(s1, run)
    ensures Possible(s, [l] + run) && After(s, [l] + run) == After(s1, run)
  {
    hide Apply, Enabled;
    assert ([l] + run)[1..] == run;
  }

  /** A connection comes in and its push enters the monitor. */
  lemma PushStarts(fd: nat, ring: Ring, pushed: seq<nat>, run: seq<Label>) returns (all: seq<Label>)
    requires Possible(Two(ALoop(fd, false), WTop, Some(0), ring, pushed, false), run)
    ensures var s := Two(ATop, WTop, None, ring, pushed, false);
            && Possible(s, all)
            && After(s, all) == After(Two(ALoop(fd, false), WTop, Some(0), ring, pushed, false), run)
  {
    hide Possible, After, Put, WakeWorkers, Consistent, WakesWorker, WakesAcceptor, Waking, ActWorker, ActShutdown;
    var go := Act(0, None);
    var s1 := Two(AEnter(fd), WTop, None, ring, pushed, false);
    var s0 := Two(AAccept, WTop, None, ring, pushed, false);
    Prefixed(s1, go, Two(ALoop(fd, false), WTop, Some(0), ring, pushed, false), run);
    Prefixed(s0, Accept(0, fd), s1, [go] + run);
    all := [go] + ([Accept(0, fd)] + ([go] + run));
    Prefixed(Two(ATop, WTop, None, ring, pushed, false), go, s0, [Accept(0, fd)] + ([go] + run));
  }

  /** It finds room and the flag clear. */
  lemma PushEnters(run: seq<Label>) returns (all: seq<Label>)
    requires Possible(Two(APut(7, false), WTop, Some(0), Empty(1), [], false), run)
    ensures var s := Two(ATop, WTop, None, Empty(1), [], false);
            && Possible(s, all)
            && After(s, all) == After(Two(APut(7, false), WTop, Some(0), Empty(1), [], false), run)
  {
    hide Possible, After, Put, WakeWorkers, Consistent, WakesWorker, WakesAcceptor, Waking, ActWorker, ActShutdown;
    var e, me, go := Empty(1), Some(0), Act(0, None);
    var s3 := Two(ACheck(7, false), WTop, me, e, [], false);
    Prefixed(s3, go, Two(APut(7, false), WTop, me, e, [], false), run);
    Prefixed(Two(ALoop(7, false), WTop, me, e, [], false), go, s3, [go] + run);
    all := PushStarts(7, e, [], [go] + ([go] + run));
  }

  /** Insert, signal nobody, leave. */
  lemma PushLeaves(run: seq<Label>) returns (all: seq<Label>)
    requires Possible(Two(ATop, WTop, None, Ring([7], 0, 0, 1), [7], false), run)
    ensures var s := Two(APut(7, false), WTop, Some(0), Empty(1), [], false);
            && Possible(s, all)
            && After(s, all) == After(Two(ATop, WTop, None, Ring([7], 0, 0, 1), [7], false), run)
  {
    hide Possible, After, WakeWorkers, Put, Consistent, WakesAcceptor, Empty, ActWorker, ActShutdown;
    var f, me, go := Ring([7], 0, 0, 1), Some(0), Act(0, None);
    var s5 := Two(ASignal, WTop, me, f, [7], false);
    var s6 := Two(ALeave, WTop, me, f, [7], false);
    Prefixed(s6, go, Two(ATop, WTop, None, f, [7], false), run);
    Prefixed(s5, go, s6, [go] + run);
    all := [go] + ([go] + ([go] + run));
    PutAlone();
    Prefixed(Two(APut(7, false), WTop, me, Empty(1), [], false), go, s5, [go] + ([go] + run));
  }

  lemma PutAlone()
    ensures var s := Two(APut(7, false), WTop, Some(0), Empty(1), [], false);
            && Enabled(s, Act(0, None))
            && Apply(s, Act(0, None)) == Two(ASignal, WTop, Some(0), Ring([7], 0, 0, 1), [7], false)
  {
    var e := Empty(1);
    assert e.fds == [0] && Put(e, 7) == Ring([7], 0, 0, 1);
  }

  /** A second connection finds the queue full and the flag clear. */
  lemma SecondEnters(run: seq<Label>) returns (all: seq<Label>)
    requires Possible(Two(AAbout(8), WTop, Some(0), Ring([7], 0, 0, 1), [7], false), run)
    ensures var s := Two(ATop, WTop, None, Ring([7], 0, 0, 1), [7], false);
            && Possible(s, all)
            && After(s, all) == After(Two(AAbout(8), WTop, Some(0), Ring([7], 0, 0, 1), [7], false), run)
  {
    hide Possible, After, Put, WakeWorkers, Consistent, WakesWorker, WakesAcceptor, Waking, ActWorker, ActShutdown;
    var f, me, go := Ring([7], 0, 0, 1), Some(0), Act(0, None);
    var s3 := Two(ATest(8), WTop, me, f, [7], false);
    Prefixed(s3, go, Two(AAbout(8), WTop, me, f, [7], false), run);
    Prefixed(Two(ALoop(8, false), WTop, me, f, [7], false), go, s3, [go] + run);
    all := PushStarts(8, f, [7], [go] + ([go] + run));
  }

  lemma FromStart(tail: seq<Label>) returns (s: State, run: seq<Label>)
    requires Possible(Two(AAbout(8), WTop, Some(0), Ring([7], 0, 0, 1), [7], false), tail)
    ensures Start(s) && Possible(s, run)
    ensures After(s, run) == After(Two(AAbout(8), WTop, Some(0), Ring([7], 0, 0, 1), [7], false), tail)
  {
    hide Apply, Enabled, Possible, After;
    run := SecondEnters(tail);
    run := PushLeaves(run);
    run := PushEnters(run);
    s := Two(ATop, WTop, None, Empty(1), [], false);
  }

  /** Shutdown need not complete: a run from a start state in which the acceptor goes to
      sleep on a full queue before the interrupt, and then never gets to call
      `queue_shutdown`. */
  lemma ShutdownCanHang() returns (s: State, run: seq<Label>)
    ensures Start(s) && Possible(s, run) && Stranded(After(s, run), 0) && After(s, run).pcs[0].AAsleep?
  {
    hide WakeWorkers, Put, ActWorker, ActShutdown, Consistent, WakesWorker, WakesAcceptor;
    var f := Ring([7], 0, 0, 1);
    var s4 := Two(AAbout(8), WTop, Some(0), f, [7], false);
    var s5 := Two(AAsleep(8), WTop, None, f, [7], false);
    var s6 := Two(AAsleep(8), WTop, None, f, [7], true);
    Prefixed(s5, Interrupt, s6, []);
    Prefixed(s4, Act(0, None), s5, [Interrupt] + []);
    s, run := FromStart([Act(0, None)] + ([Interrupt] + []));
    assert After(s, run) == s6;
  }

  /** The same with the interrupt between the last look at the flag and the wait. */
  lemma InterruptInBetween() returns (s: State, run: seq<Label>)
    ensures Start(s) && Possible(s, run) && Stranded(After(s, run), 0) && After(s, run).pcs[0].AAbout?
  {
    hide WakeWorkers, Put, ActWorker, ActAcceptor, ActShutdown, Consistent, WakesWorker, WakesAcceptor;
    var f := Ring([7], 0, 0, 1);
    var s4 := Two(AAbout(8), WTop, Some(0), f, [7], false);
    var s5 := Two(AAbout(8), WTop, Some(0), f, [7], true);
    Prefixed(s4, Interrupt, s5, []);
    s, run := FromStart([Interrupt] + []);
    assert After(s, run) == s5;
  }

  /** One call earlier: the interrupt between the look at the flag and `accept`. */
  lemma InterruptBeforeAccept() returns (s: State, run: seq<Label>)
    ensures Start(s) && Possible(s, run)
    ensures var z := After(s, run);
            z.sigint && OnlyAcceptor(z, 0) && z.pcs[0].AAccept?
  {
    hide WakeWorkers, Put, ActWorker, ActShutdown, Consistent, WakesWorker, WakesAcceptor;
    s := Two(ATop, WTop, None, Empty(1), [], false);
    var s1 := Two(AAccept, WTop, None, Empty(1), [], false);
    var s2 := Two(AAccept, WTop, None, Empty(1), [], true);
    Prefixed(s1, Interrupt, s2, []);
    run := [Act(0, None)] + ([Interrupt] + []);
    Prefixed(s, Act(0, None), s1, [Interrupt] + []);
    assert After(s, run) == s2;
  }

  // A failed accept: the acceptor shuts the queue down with the flag clear, then the
  // worker goes to sleep, and the interrupt comes too late.

  lemma BroadcastStep()
    ensures var s := Two(SBroadcast, WTop, Some(0), Empty(1), [], false);
            && Enabled(s, Act(0, None))
            && Apply(s, Act(0, None)) == Two(SLeave, WTop, Some(0), Empty(1), [], false)
  {
    hide Empty, Consistent, WakesWorker, WakesAcceptor, ActWorker, ActAcceptor;
    var s := Two(SBroadcast, WTop, Some(0), Empty(1), [], false);
    assert WakeWorkers(s.pcs) == s.pcs;
  }

  lemma LeaveStep()
    ensures var s := Two(SLeave, WTop, Some(0), Empty(1), [], false);
            && Enabled(s, Act(0, None))
            && Apply(s, Act(0, None)) == Two(SDone, WTop, None, Empty(1), [], false)
  {
    hide Empty, Consistent, WakesWorker, WakesAcceptor, ActWorker, ActAcceptor, WakeWorkers;
  }

  lemma BroadcastsAlone(run: seq<Label>) returns (all: seq<Label>)
    requires Possible(Two(SDone, WTop, None, Empty(1), [], false), run)
    ensures var s := Two(SBroadcast, WTop, Some(0), Empty(1), [], false);
            Possible(s, all) && After(s, all) == After(Two(SDone, WTop, None, Empty(1), [], false), run)
  {
    hide Possible, After, Empty, Enabled, Apply;
    var go := Act(0, None);
    LeaveStep();
    BroadcastStep();
    var s3 := Two(SLeave, WTop, Some(0), Empty(1), [], false);
    Prefixed(s3, go, Two(SDone, WTop, None, Empty(1), [], false), run);
    all := [go] + ([go] + run);
    Prefixed(Two(SBroadcast, WTop, Some(0), Empty(1), [], false), go, s3, [go] + run);
  }

  lemma AcceptFails(run: seq<Label>) returns (all: seq<Label>)
    requires Possible(Two(SBroadcast, WTop, Some(0), Empty(1), [], false), run)
    ensures var s := Two(ATop, WTop, None, Empty(1), [], false);
            && Possible(s, all)
            && After(s, all) == After(Two(SBroadcast, WTop, Some(0), Empty(1), [], false), run)
  {
    hide Possible, After, Empty, Consistent, WakesWorker, WakesAcceptor, Waking, ActWorker, WakeWorkers, Put;
    var e, go := Empty(1), Act(0, None);
    var s0 := Two(AAccept, WTop, None, e, [], false);
    var s1 := Two(SEnter, WTop, None, e, [], false);
    Prefixed(s1, go, Two(SBroadcast, WTop, Some(0), e, [], false), run);
    Prefixed(s0, Fails(0), s1, [go] + run);
    all := [go] + ([Fails(0)] + ([go] + run));
    Prefixed(Two(ATop, WTop, None, e, [], false), go, s0, [Fails(0)] + ([go] + run));
  }

  lemma WorkerEnters(run: seq<Label>) returns (all: seq<Label>)
    requires Possible(Two(SDone, WTest, Some(1), Empty(1), [], false), run)
    ensures var s := Two(SDone, WTop, None, Empty(1), [], false);
            Possible(s, all) && After(s, all) == After(Two(SDone, WTest, Some(1), Empty(1), [], false), run)
  {
    hide Possible, After, Consistent, WakesWorker, WakesAcceptor, Waking, ActAcceptor, ActShutdown, Take, Next;
    var e, me, go := Empty(1), Some(1), Act(1, None);
    var s1 := Two(SDone, WEnter, None, e, [], false);
    var s2 := Two(SDone, WLoop(false), me, e, [], false);
    Prefixed(s2, go, Two(SDone, WTest, me, e, [], false), run);
    Prefixed(s1, go, s2, [go] + run);
    all := [go] + ([go] + ([go] + run));
    Prefixed(Two(SDone, WTop, None, e, [], false), go, s1, [go] + ([go] + run));
  }

  lemma WorkerSleeps() returns (all: seq<Label>)
    ensures var s := Two(SDone, WTest, Some(1), Empty(1), [], false);
            Possible(s, all) && After(s, all) == Two(SDone, WAsleep, None, Empty(1), [], true)
  {
    hide Consistent, WakesWorker, WakesAcceptor, Waking, ActAcceptor, ActShutdown, Take, Next, Empty;
    var e, me, go := Empty(1), Some(1), Act(1, None);
    var s1 := Two(SDone, WAbout, me, e, [], false);
    var s2 := Two(SDone, WAsleep, None, e, [], false);
    var s3 := Two(SDone, WAsleep, None, e, [], true);
    Prefixed(s2, Interrupt, s3, []);
    Prefixed(s1, go, s2, [Interrupt] + []);
    all := [go] + ([go] + ([Interrupt] + []));
    Prefixed(Two(SDone, WTest, me, e, [], false), go, s1, [go] + ([Interrupt] + []));
  }

  /** A broadcast without the flag is not enough: after a failed accept a worker can miss
      the shutdown for good, although the interrupt comes later. */
  lemma FailedAcceptHangs() returns (s: State, run: seq<Label>)
    ensures Start(s) && Possible(s, run)
    ensures var z := After(s, run);
            z.pcs == [SDone, WAsleep] && z.sigint && !z.down && Missed(z, 1)
  {
    hide Apply, Enabled, Possible, After;
    run := WorkerSleeps();
    run := WorkerEnters(run);
    run := BroadcastsAlone(run);
    run := AcceptFails(run);
    s := Two(ATop, WTop, None, Empty(1), [], false);
    assert After(s, run) == Two(SDone, WAsleep, None, Empty(1), [], true);
  }
}
