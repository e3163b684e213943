/** Before the interrupt the server goes on serving: no worker leaves, nobody waits while
    there is something for it to do, and from there every worker and every acceptor gets
    through one more round of its loop. */
module MonitorService {
  import opened Wrappers
  import opened Ring
  import opened Monitor
  import opened MonitorSafety
  import opened MonitorWakeups
  import opened MonitorRuns
  import opened MonitorDrain

  // ---------------------------------------------------------------- nobody leaves

  /** As long as the flag is clear, no worker has left its loop. */
  ghost predicate Alive(s: State) {
    !s.sigint ==> forall t :: 0 <= t < |s.pcs| ==> !s.pcs[t].WExit?
  }

  lemma WorkerLives(s: State, t: nat, wake: Option<nat>)
    requires Enabled(s, Act(t, wake)) && IsWorker(s.pcs[t]) && !s.sigint
    ensures var s1 := ActWorker(s, t, wake);
            |s1.pcs| == |s.pcs| && forall u :: 0 <= u < |s.pcs| && s1.pcs[u].WExit? ==> s.pcs[u].WExit?
  {
    hide Consistent, Take, Next, WakesWorker;
  }

  lemma AcceptorLives(s: State, t: nat, wake: Option<nat>)
    requires Enabled(s, Act(t, wake)) && IsAcceptor(s.pcs[t])
    ensures var s1 := ActAcceptor(s, t, wake);
            |s1.pcs| == |s.pcs| && forall u :: 0 <= u < |s.pcs| && s1.pcs[u].WExit? ==> s.pcs[u].WExit?
  {
    hide Consistent, Put, WakesAcceptor;
  }

  lemma AliveStep(s: State, l: Label)
    requires Alive(s) && Enabled(s, l)
    ensures Alive(Apply(s, l))
  {
    hide ActWorker, ActAcceptor;
    if s.sigint {
      InterruptLasts(s, l);
    } else if l.Act? && IsWorker(s.pcs[l.t]) {
      WorkerLives(s, l.t, l.wake);
    } else if l.Act? && IsAcceptor(s.pcs[l.t]) {
      AcceptorLives(s, l.t, l.wake);
    }
  }

  lemma {:induction false} AliveRun(s: State, run: seq<Label>)
    requires Alive(s) && Possible(s, run)
    ensures Alive(After(s, run))
    decreases |run|
  {
    hide Apply, Enabled, Alive;
    if run != [] {
      AliveStep(s, run[0]);
      AliveRun(Apply(s, run[0]), run[1..]);
    }
  }

  lemma NobodyLeaves(s: State, run: seq<Label>, t: nat)
    requires Start(s) && Possible(s, run) && t < |After(s, run).pcs| && !After(s, run).sigint
    ensures !After(s, run).pcs[t].WExit?
  {
    hide Apply, Start, Possible, After;
    StartAlive(s);
    AliveRun(s, run);
  }

  // ---------------------------------------------------------------- nobody waits in vain

  /** With the flag clear and no thread able to go on by itself: a worker sleeps only while
      the queue is empty, and is busy with a connection otherwise; an acceptor sleeps only
      while the queue is full, and is in `accept` otherwise. */
  lemma IdleExactly(s: State, run: seq<Label>, t: nat)
    requires Start(s) && Possible(s, run) && t < |After(s, run).pcs|
    requires !After(s, run).sigint && Stuck(After(s, run))
    ensures var z := After(s, run);
            && z.holder == None
            && (IsWorker(z.pcs[t]) ==> z.pcs[t].WBusy? || (z.pcs[t].WAsleep? && z.ring.size == 0))
            && (IsAcceptor(z.pcs[t]) ==>
                  z.pcs[t].AAccept? || (z.pcs[t].AAsleep? && z.ring.size == |z.ring.fds|))
  {
    hide Apply, Enabled, Count, Start, Possible, After, Stuck, Consistent;
    StartInvariant(s);
    StartAlive(s);
    RunInvariant(s, run);
    AliveRun(s, run);
    var z := After(s, run);
    StuckIsAtRest(z, t);
    NoLostWakeup(s, run);
    NobodyOnTheWay(z);
    ConsistentSize(z.ring);
  }

  lemma StartAlive(s: State)
    requires Start(s)
    ensures Alive(s)
  {
  }

  lemma ConsistentSize(r: Ring)
    requires Consistent(r)
    ensures r.size <= |r.fds|
  {
  }

  lemma NobodyOnTheWay(z: State)
    requires Invariant(z) && Stuck(z)
    ensures Count(WokenWorkers, z.pcs) == Count(PendingPuts, z.pcs) == 0
    ensures Count(WokenAcceptors, z.pcs) == Count(PendingTakes, z.pcs) == 0
  {
    hide Enabled, Count, Invariant, Stuck;
    forall u | 0 <= u < |z.pcs|
      ensures AtRest(z.pcs[u])
    {
      StuckIsAtRest(z, u);
    }
    CountNone(WokenWorkers, z.pcs);
    CountNone(PendingPuts, z.pcs);
    CountNone(WokenAcceptors, z.pcs);
    CountNone(PendingTakes, z.pcs);
  }

  // ---------------------------------------------------------------- one more round

  lemma {:induction false} Then(s: State, run: seq<Label>, l: Label)
    requires Possible(s, run) && Enabled(After(s, run), l)
    ensures Possible(s, run + [l]) && After(s, run + [l]) == Apply(After(s, run), l)
    decreases |run|
  {
    hide Apply, Enabled;
    if run == [] {
      assert [l][1..] == [] && run + [l] == [l];
    } else {
      assert (run + [l])[1..] == run[1..] + [l];
      Then(Apply(s, run[0]), run[1..], l);
    }
  }

  /** The steps of a pop, one by one, as long as the flag is clear and the queue not empty. */
  lemma PopEnters(x: State, t: nat)
    requires t < |x.pcs| && !x.sigint && x.holder == None && x.pcs[t].WTop?
    ensures Enabled(x, Act(t, None)) && Apply(x, Act(t, None)) == At(x, t, WEnter)
  {
    hide Consistent, WakesWorker, WakesAcceptor, Take, Next, ActAcceptor, ActShutdown;
  }

  lemma PopLocks(x: State, t: nat)
    requires t < |x.pcs| && x.holder == None && x.pcs[t].WEnter?
    ensures Enabled(x, Act(t, None))
    ensures Apply(x, Act(t, None)) == At(x, t, WLoop(false)).(holder := Some(t))
  {
    hide Consistent, WakesWorker, WakesAcceptor, Take, Next, ActAcceptor, ActShutdown;
  }

  lemma PopLooks(x: State, t: nat)
    requires t < |x.pcs| && x.pcs[t] == WLoop(false) && x.ring.size > 0
    ensures Enabled(x, Act(t, None)) && Apply(x, Act(t, None)) == At(x, t, WCheck(false))
  {
    hide Consistent, WakesWorker, WakesAcceptor, Take, Next, ActAcceptor, ActShutdown;
  }

  lemma PopChecks(x: State, t: nat)
    requires t < |x.pcs| && x.pcs[t] == WCheck(false) && !x.sigint
    ensures Enabled(x, Act(t, None)) && Apply(x, Act(t, None)) == At(x, t, WTake(false))
  {
    hide Consistent, WakesWorker, WakesAcceptor, Take, Next, ActAcceptor, ActShutdown;
  }

  lemma PopTakes(x: State, t: nat)
    requires t < |x.pcs| && x.pcs[t].WTake? && Consistent(x.ring) && x.ring.size > 0
    ensures Enabled(x, Act(t, None))
    ensures Apply(x, Act(t, None)) ==
            At(x, t, WSignal(Next(x.ring))).(ring := Take(x.ring), taken := x.taken + [(t, Next(x.ring))])
  {
    hide Consistent, WakesWorker, WakesAcceptor, Take, Next, ActAcceptor, ActShutdown;
  }

  lemma PopSignals(x: State, t: nat) returns (wake: Option<nat>)
    requires t < |x.pcs| && x.pcs[t].WSignal?
    ensures Enabled(x, Act(t, wake))
    ensures var x1 := Apply(x, Act(t, wake));
            && |x1.pcs| == |x.pcs| && x1.pcs[t] == WLeave(Some(x.pcs[t].fd))
            && x1.(pcs := x.pcs) == x
  {
    hide Consistent, WakesWorker, Take, Next, ActAcceptor, ActShutdown;
    wake := PickAcceptor(x);
  }

  lemma PopLeaves(x: State, t: nat)
    requires t < |x.pcs| && x.pcs[t].WLeave?
    ensures Enabled(x, Act(t, None))
    ensures Apply(x, Act(t, None)) ==
            At(x, t, WBack(x.pcs[t].result)).(holder := None, returned := x.returned + [(t, x.pcs[t].result)])
  {
    hide Consistent, WakesWorker, WakesAcceptor, Take, Next, ActAcceptor, ActShutdown;
  }

  lemma PopServes(x: State, t: nat)
    requires t < |x.pcs| && x.pcs[t].WBack? && !x.sigint
    ensures Enabled(x, Act(t, None)) && Apply(x, Act(t, None)) == At(x, t, WBusy)
  {
    hide Consistent, WakesWorker, WakesAcceptor, Take, Next, ActAcceptor, ActShutdown;
  }

  lemma GetsDone(x: State, t: nat)
    requires t < |x.pcs| && x.pcs[t].WBusy?
    ensures Enabled(x, Finishes(t)) && Apply(x, Finishes(t)) == At(x, t, WTop)
  {
  }

  /** A busy worker that gets done with its connection takes the next one in the queue, by
      its own steps alone, and is busy with that. */
  lemma ServesNext(s: State, t: nat) returns (run: seq<Label>)
    requires Consistent(s.ring) && s.ring.size > 0 && !s.sigint && s.holder == None
    requires t < |s.pcs| && s.pcs[t].WBusy?
    ensures Possible(s, run) && |run| == 9 && run[0] == Finishes(t)
    ensures forall i :: 1 <= i < |run| ==> run[i].Act? && run[i].t == t
    ensures var z, fd := After(s, run), Next(s.ring);
            && t < |z.pcs| && z.pcs[t].WBusy? && !z.sigint && z.holder == None
            && z.ring == Take(s.ring) && z.pushed == s.pushed
            && z.taken == s.taken + [(t, fd)] && z.returned == s.returned + [(t, Some(fd))]
  {
    hide Apply, Enabled, Consistent, Take, Next, Possible, After;
    var go := Act(t, None);
    NoSteps(s);
    GetsDone(s, t);
    Then(s, [], Finishes(t));
    run := [] + [Finishes(t)];
    PopEnters(After(s, run), t);
    Then(s, run, go);
    run := run + [go];
    PopLocks(After(s, run), t);
    Then(s, run, go);
    run := run + [go];
    PopLooks(After(s, run), t);
    Then(s, run, go);
    run := run + [go];
    PopChecks(After(s, run), t);
    Then(s, run, go);
    run := run + [go];
    PopTakes(After(s, run), t);
    Then(s, run, go);
    run := run + [go];
    var wake := PopSignals(After(s, run), t);
    Then(s, run, Act(t, wake));
    run := run + [Act(t, wake)];
    PopLeaves(After(s, run), t);
    Then(s, run, go);
    run := run + [go];
    PopServes(After(s, run), t);
    Then(s, run, go);
    run := run + [go];
  }

  lemma NoSteps(s: State)
    ensures Possible(s, []) && After(s, []) == s
  {
  }

  /** The steps of a push. */
  lemma PushEnters(x: State, t: nat, fd: nat)
    requires t < |x.pcs| && x.pcs[t].AAccept?
    ensures Enabled(x, Accept(t, fd)) && Apply(x, Accept(t, fd)) == At(x, t, AEnter(fd))
  {
  }

  lemma PushLocks(x: State, t: nat)
    requires t < |x.pcs| && x.holder == None && x.pcs[t].AEnter?
    ensures Enabled(x, Act(t, None))
    ensures Apply(x, Act(t, None)) == At(x, t, ALoop(x.pcs[t].fd, false)).(holder := Some(t))
  {
    hide Consistent, WakesWorker, WakesAcceptor, Put, ActWorker, ActShutdown;
  }

  lemma PushLooks(x: State, t: nat)
    requires t < |x.pcs| && x.pcs[t].ALoop? && x.ring.size < |x.ring.fds|
    ensures Enabled(x, Act(t, None))
    ensures Apply(x, Act(t, None)) == At(x, t, ACheck(x.pcs[t].fd, x.pcs[t].woken))
  {
    hide Consistent, WakesWorker, WakesAcceptor, Put, ActWorker, ActShutdown;
  }

  lemma PushChecks(x: State, t: nat)
    requires t < |x.pcs| && x.pcs[t].ACheck? && !x.sigint
    ensures Enabled(x, Act(t, None))
    ensures Apply(x, Act(t, None)) == At(x, t, APut(x.pcs[t].fd, x.pcs[t].woken))
  {
    hide Consistent, WakesWorker, WakesAcceptor, Put, ActWorker, ActShutdown;
  }

  lemma PushPuts(x: State, t: nat)
    requires t < |x.pcs| && x.pcs[t].APut? && Consistent(x.ring) && x.ring.size < |x.ring.fds|
    ensures Enabled(x, Act(t, None))
    ensures Apply(x, Act(t, None)) ==
            At(x, t, ASignal).(ring := Put(x.ring, x.pcs[t].fd), pushed := x.pushed + [x.pcs[t].fd])
  {
    hide Consistent, WakesWorker, WakesAcceptor, Put, ActWorker, ActShutdown;
  }

  lemma PushSignals(x: State, t: nat) returns (wake: Option<nat>)
    requires t < |x.pcs| && x.pcs[t].ASignal?
    ensures Enabled(x, Act(t, wake))
    ensures var x1 := Apply(x, Act(t, wake));
            |x1.pcs| == |x.pcs| && x1.pcs[t].ALeave? && x1.(pcs := x.pcs) == x
  {
    hide Consistent, WakesAcceptor, Put, ActWorker, ActShutdown;
    wake := PickWorker(x);
  }

  lemma PushLeaves(x: State, t: nat)
    requires t < |x.pcs| && x.pcs[t].ALeave?
    ensures Enabled(x, Act(t, None)) && Apply(x, Act(t, None)) == At(x, t, ATop).(holder := None)
  {
    hide Consistent, WakesWorker, WakesAcceptor, Put, ActWorker, ActShutdown;
  }

  lemma AcceptsAgain(x: State, t: nat)
    requires t < |x.pcs| && x.pcs[t].ATop? && !x.sigint
    ensures Enabled(x, Act(t, None)) && Apply(x, Act(t, None)) == At(x, t, AAccept)
  {
    hide Consistent, WakesWorker, WakesAcceptor, Put, ActWorker, ActShutdown;
  }

  /** A connection that an acceptor gets while there is room is enqueued by its own steps
      alone, and it goes back to `accept`. */
  lemma EnqueuesNext(s: State, t: nat, fd: nat) returns (run: seq<Label>)
    requires Consistent(s.ring) && s.ring.size < |s.ring.fds| && !s.sigint && s.holder == None
    requires t < |s.pcs| && s.pcs[t].AAccept?
    ensures Possible(s, run) && |run| == 8 && run[0] == Accept(t, fd)
    ensures forall i :: 1 <= i < |run| ==> run[i].Act? && run[i].t == t
    ensures var z := After(s, run);
            && t < |z.pcs| && z.pcs[t].AAccept? && !z.sigint && z.holder == None
            && z.ring == Put(s.ring, fd) && z.pushed == s.pushed + [fd] && z.taken == s.taken
  {
    hide Apply, Enabled, Consistent, Put, Possible, After;
    var go := Act(t, None);
    NoSteps(s);
    PushEnters(s, t, fd);
    Then(s, [], Accept(t, fd));
    run := [] + [Accept(t, fd)];
    PushLocks(After(s, run), t);
    Then(s, run, go);
    run := run + [go];
    PushLooks(After(s, run), t);
    Then(s, run, go);
    run := run + [go];
    PushChecks(After(s, run), t);
    Then(s, run, go);
    run := run + [go];
    PushPuts(After(s, run), t);
    Then(s, run, go);
    run := run + [go];
    var wake := PushSignals(After(s, run), t);
    Then(s, run, Act(t, wake));
    run := run + [Act(t, wake)];
    PushLeaves(After(s, run), t);
    Then(s, run, go);
    run := run + [go];
    AcceptsAgain(After(s, run), t);
    Then(s, run, go);
    run := run + [go];
  }

  /** The server goes on serving: from every state that a run before the interrupt can reach
      and in which no thread can go on by itself, with a connection in the queue and a
      worker in the server, that worker is busy, and as soon as it gets done the oldest
      queued connection is handed to it. */
  lemma ServiceGoesOn(s: State, run: seq<Label>, t: nat) returns (more: seq<Label>)
    requires Start(s) && Possible(s, run)
    requires var z := After(s, run);
             && !z.sigint && Stuck(z) && z.ring.size > 0 && t < |z.pcs| && IsWorker(z.pcs[t])
    ensures var z := After(s, run);
            && Consistent(z.ring) && z.pcs[t].WBusy? && Possible(z, more) && |more| == 9 && more[0] == Finishes(t)
            && t < |After(z, more).pcs| && After(z, more).pcs[t].WBusy?
            && |z.taken| < |z.pushed| && After(z, more).returned == z.returned + [(t, Some(z.pushed[|z.taken|]))]
  {
    hide Apply, Enabled, Start, Possible, After, Stuck, Take, Next;
    IdleExactly(s, run, t);
    FirstInFirstOut(s, run);
    var z := After(s, run);
    NextIsOldest(z);
    more := ServesNext(z, t);
  }

  lemma NextIsOldest(z: State)
    requires Consistent(z.ring) && z.ring.size > 0 && Conns(z.taken) + Items(z.ring) == z.pushed
    ensures |z.taken| < |z.pushed| && Next(z.ring) == z.pushed[|z.taken|]
  {
    hide Items, Take, Next;
    TakeRemoves(z.ring);
    assert z.pushed[|z.taken|] == Items(z.ring)[0];
  }

  // ---------------------------------------------------------------- freedom of the environment

  /** Nothing is ruled out that the threads library and the outside may do: the interrupt
      comes at any time, a sleeper may wake without cause, a signal may pick any sleeper on
      its condition, and a free mutex may be taken by any thread that asks for it, woken or
      not. */
  lemma EnvironmentIsFree(s: State, t: nat, u: nat)
    requires t < |s.pcs| && u < |s.pcs|
    ensures Enabled(s, Interrupt) && Apply(s, Interrupt) == s.(sigint := true)
    ensures s.pcs[t].WAsleep? ==> Enabled(s, Spurious(t)) && Apply(s, Spurious(t)) == At(s, t, WWoken)
    ensures s.pcs[t].AAsleep? ==>
              Enabled(s, Spurious(t)) && Apply(s, Spurious(t)) == At(s, t, AWoken(s.pcs[t].fd))
    ensures s.pcs[t].WSignal? && s.pcs[u].AAsleep? ==>
              Enabled(s, Act(t, Some(u))) && Apply(s, Act(t, Some(u))).pcs[u] == AWoken(s.pcs[u].fd)
    ensures s.pcs[t].ASignal? && s.pcs[u].WAsleep? ==>
              Enabled(s, Act(t, Some(u))) && Apply(s, Act(t, Some(u))).pcs[u] == WWoken
    ensures s.holder == None &&
            (s.pcs[t].WEnter? || s.pcs[t].WWoken? || s.pcs[t].AEnter? || s.pcs[t].AWoken? || s.pcs[t].SEnter?) ==>
              Enabled(s, Act(t, None)) && Apply(s, Act(t, None)).holder == Some(t)
  {
    hide Consistent, Take, Next, Put, WakeWorkers;
  }
}
