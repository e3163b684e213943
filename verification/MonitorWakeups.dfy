/** No wakeup is lost: as long as a thread sleeps, everything it could have done is
    covered by threads already on their way. */
module MonitorWakeups {
  import opened Wrappers
  import opened Ring
  import opened Monitor
  import opened MonitorSafety

  /** Groups of threads that are counted: asleep, woken and still to run, and between
      changing the queue and signalling the change. */
  datatype Group =
    | SleepingWorkers
    | WokenWorkers
    | PendingPuts
    | SleepingAcceptors
    | WokenAcceptors
    | PendingTakes

  predicate In(g: Group, pc: Pc) {
    match g
    case SleepingWorkers => pc.WAsleep?
    case WokenWorkers => pc.WWoken? || ((pc.WLoop? || pc.WCheck? || pc.WTake?) && pc.woken)
    case PendingPuts => pc.ASignal?
    case SleepingAcceptors => pc.AAsleep?
    case WokenAcceptors => pc.AWoken? || ((pc.ALoop? || pc.ACheck? || pc.APut?) && pc.woken)
    case PendingTakes => pc.WSignal?
  }

  function One(g: Group, pc: Pc): nat {
    if In(g, pc) then 1 else 0
  }

  function Count(g: Group, pcs: seq<Pc>): nat {
    if pcs == [] then 0 else One(g, pcs[0]) + Count(g, pcs[1..])
  }

  lemma {:induction false} CountUpdate(g: Group, pcs: seq<Pc>, t: nat, pc: Pc)
    requires t < |pcs|
    ensures Count(g, pcs[t := pc]) + One(g, pcs[t]) == Count(g, pcs) + One(g, pc)
    decreases |pcs|
  {
    hide In;
    if t == 0 {
      assert pcs[t := pc][1..] == pcs[1..];
    } else {
      assert pcs[t := pc][1..] == pcs[1..][t - 1 := pc];
      CountUpdate(g, pcs[1..], t - 1, pc);
    }
  }

  lemma {:induction false} CountNone(g: Group, pcs: seq<Pc>)
    ensures Count(g, pcs) == 0 <==> forall t :: 0 <= t < |pcs| ==> !In(g, pcs[t])
    decreases |pcs|
  {
    if pcs != [] {
      CountNone(g, pcs[1..]);
      assert forall t :: 1 <= t < |pcs| ==> pcs[t] == pcs[1..][t - 1];
      assert (forall t :: 0 <= t < |pcs| ==> !In(g, pcs[t])) ==>
          forall t :: 0 <= t < |pcs[1..]| ==> !In(g, pcs[1..][t]) by {
        assert forall t :: 0 <= t < |pcs[1..]| ==> pcs[1..][t] == pcs[t + 1];
      }
    }
  }

  /** With a worker asleep, every queued connection is matched by a woken worker still
      to run or by a signal about to be sent. */
  predicate WorkersCovered(s: State) {
    Count(SleepingWorkers, s.pcs) > 0 ==>
      s.ring.size <= Count(WokenWorkers, s.pcs) + Count(PendingPuts, s.pcs)
  }

  /** With an acceptor asleep, every free slot is matched likewise. */
  predicate AcceptorsCovered(s: State) {
    Count(SleepingAcceptors, s.pcs) > 0 ==>
      |s.ring.fds| - s.ring.size <= Count(WokenAcceptors, s.pcs) + Count(PendingTakes, s.pcs)
  }

  predicate Covered(s: State) {
    !s.sigint ==> WorkersCovered(s) && AcceptorsCovered(s)
  }

  /** A mover that changes the counts and the queue in a covered way. */
  predicate WorkersBalance(s: State, s1: State, old_: Pc, new_: Pc) {
    || s1.ring.size == 0
    || (&& One(SleepingWorkers, new_) <= One(SleepingWorkers, old_)
        && s1.ring.size - s.ring.size <=
           One(WokenWorkers, new_) - One(WokenWorkers, old_) + One(PendingPuts, new_) - One(PendingPuts, old_))
  }

  predicate AcceptorsBalance(s: State, s1: State, old_: Pc, new_: Pc) {
    || s1.ring.size == |s1.ring.fds|
    || (&& One(SleepingAcceptors, new_) <= One(SleepingAcceptors, old_)
        && |s1.ring.fds| == |s.ring.fds|
        && s.ring.size - s1.ring.size <=
           One(WokenAcceptors, new_) - One(WokenAcceptors, old_) + One(PendingTakes, new_) - One(PendingTakes, old_))
  }

  lemma WorkersBalanced(s: State, s1: State, t: nat, pc: Pc)
    requires t < |s.pcs| && s1.pcs == s.pcs[t := pc]
    requires WorkersCovered(s) && WorkersBalance(s, s1, s.pcs[t], pc)
    ensures WorkersCovered(s1)
  {
    hide In;
    CountUpdate(SleepingWorkers, s.pcs, t, pc);
    CountUpdate(WokenWorkers, s.pcs, t, pc);
    CountUpdate(PendingPuts, s.pcs, t, pc);
  }

  lemma AcceptorsBalanced(s: State, s1: State, t: nat, pc: Pc)
    requires t < |s.pcs| && s1.pcs == s.pcs[t := pc]
    requires AcceptorsCovered(s) && AcceptorsBalance(s, s1, s.pcs[t], pc)
    ensures AcceptorsCovered(s1)
  {
    hide In;
    CountUpdate(SleepingAcceptors, s.pcs, t, pc);
    CountUpdate(WokenAcceptors, s.pcs, t, pc);
    CountUpdate(PendingTakes, s.pcs, t, pc);
  }

  lemma Balanced(s: State, s1: State, t: nat, pc: Pc)
    requires t < |s.pcs| && s1.pcs == s.pcs[t := pc] && Covered(s) && !s.sigint
    requires WorkersBalance(s, s1, s.pcs[t], pc) && AcceptorsBalance(s, s1, s.pcs[t], pc)
    ensures Covered(s1)
  {
    hide WorkersBalance, AcceptorsBalance, WorkersCovered, AcceptorsCovered;
    WorkersBalanced(s, s1, t, pc);
    AcceptorsBalanced(s, s1, t, pc);
  }

  /** Steps of a worker other than its signal. */
  lemma WorkerCovered(s: State, t: nat, wake: Option<nat>)
    requires Enabled(s, Act(t, wake)) && IsWorker(s.pcs[t]) && !s.pcs[t].WSignal?
    requires !s.sigint && Covered(s) && Knows(s, s.pcs[t])
    ensures Covered(ActWorker(s, t, wake))
  {
    hide Covered, Consistent;
    var s1 := ActWorker(s, t, wake);
    WorkerBalances(s, t, wake);
    Balanced(s, s1, t, s1.pcs[t]);
  }

  lemma WorkerBalances(s: State, t: nat, wake: Option<nat>)
    requires Enabled(s, Act(t, wake)) && IsWorker(s.pcs[t]) && !s.pcs[t].WSignal?
    requires !s.sigint && Knows(s, s.pcs[t])
    ensures var s1 := ActWorker(s, t, wake);
            && t < |s1.pcs| && s1.pcs == s.pcs[t := s1.pcs[t]]
            && WorkersBalance(s, s1, s.pcs[t], s1.pcs[t]) && AcceptorsBalance(s, s1, s.pcs[t], s1.pcs[t])
  {
    hide WakesWorker;
  }

  lemma AcceptorBalances(s: State, t: nat, wake: Option<nat>)
    requires Enabled(s, Act(t, wake)) && IsAcceptor(s.pcs[t]) && !s.pcs[t].ASignal?
    requires !s.sigint && Knows(s, s.pcs[t])
    ensures var s1 := ActAcceptor(s, t, wake);
            && t < |s1.pcs| && s1.pcs == s.pcs[t := s1.pcs[t]]
            && WorkersBalance(s, s1, s.pcs[t], s1.pcs[t]) && AcceptorsBalance(s, s1, s.pcs[t], s1.pcs[t])
  {
    hide WakesAcceptor;
  }

  lemma AcceptorCovered(s: State, t: nat, wake: Option<nat>)
    requires Enabled(s, Act(t, wake)) && IsAcceptor(s.pcs[t]) && !s.pcs[t].ASignal?
    requires !s.sigint && Covered(s) && Knows(s, s.pcs[t])
    ensures Covered(ActAcceptor(s, t, wake))
  {
    hide Covered, Consistent;
    var s1 := ActAcceptor(s, t, wake);
    AcceptorBalances(s, t, wake);
    Balanced(s, s1, t, s1.pcs[t]);
  }

  /** A signal moves one sleeper to the woken side, or there is no sleeper. */
  lemma TakeSignalled(s: State, t: nat, wake: Option<nat>)
    requires Enabled(s, Act(t, wake)) && s.pcs[t].WSignal? && !s.sigint && Covered(s)
    ensures Covered(ActWorker(s, t, wake))
  {
    hide Consistent;
    var s1 := ActWorker(s, t, wake);
    var pc := s1.pcs[t];
    match wake
    case None =>
      CountNone(SleepingAcceptors, s.pcs);
      CountUpdate(SleepingAcceptors, s.pcs, t, pc);
      WorkersBalanced(s, s1, t, pc);
    case Some(u) =>
      SignalCounts(s, t, u, pc);
  }

  lemma CountTwo(g: Group, pcs: seq<Pc>, u: nat, a: Pc, t: nat, b: Pc)
    requires u < |pcs| && t < |pcs| && u != t
    ensures Count(g, pcs[u := a][t := b]) + One(g, pcs[u]) + One(g, pcs[t]) == Count(g, pcs) + One(g, a) + One(g, b)
  {
    hide In;
    CountUpdate(g, pcs, u, a);
    CountUpdate(g, pcs[u := a], t, b);
  }

  lemma SignalCounts(s: State, t: nat, u: nat, pc: Pc)
    requires t < |s.pcs| && u < |s.pcs| && !s.sigint && Covered(s)
    requires (s.pcs[t].WSignal? && s.pcs[u].AAsleep? && pc.WLeave?)
             || (s.pcs[t].ASignal? && s.pcs[u].WAsleep? && pc.ALeave?)
    ensures Covered(At(Waking(s, Some(u)), t, pc))
  {
    hide Count;
    var w := Woken(s.pcs[u]);
    CountTwo(SleepingWorkers, s.pcs, u, w, t, pc);
    CountTwo(WokenWorkers, s.pcs, u, w, t, pc);
    CountTwo(PendingPuts, s.pcs, u, w, t, pc);
    CountTwo(SleepingAcceptors, s.pcs, u, w, t, pc);
    CountTwo(WokenAcceptors, s.pcs, u, w, t, pc);
    CountTwo(PendingTakes, s.pcs, u, w, t, pc);
  }

  lemma PutSignalled(s: State, t: nat, wake: Option<nat>)
    requires Enabled(s, Act(t, wake)) && s.pcs[t].ASignal? && !s.sigint && Covered(s)
    ensures Covered(ActAcceptor(s, t, wake))
  {
    hide Consistent;
    var s1 := ActAcceptor(s, t, wake);
    var pc := s1.pcs[t];
    match wake
    case None =>
      CountNone(SleepingWorkers, s.pcs);
      CountUpdate(SleepingWorkers, s.pcs, t, pc);
      AcceptorsBalanced(s, s1, t, pc);
    case Some(u) =>
      SignalCounts(s, t, u, pc);
  }

  /** A broadcast leaves no worker asleep and does not concern acceptors. */
  lemma {:induction false} BroadcastCounts(g: Group, pcs: seq<Pc>)
    requires g == SleepingAcceptors || g == WokenAcceptors || g == PendingTakes
    ensures Count(g, WakeWorkers(pcs)) == Count(g, pcs)
    decreases |pcs|
  {
    if pcs != [] {
      BroadcastCounts(g, pcs[1..]);
      assert WakeWorkers(pcs)[1..] == WakeWorkers(pcs[1..]);
    }
  }

  lemma ShutdownCovered(s: State, t: nat, wake: Option<nat>)
    requires Enabled(s, Act(t, wake)) && !IsWorker(s.pcs[t]) && !IsAcceptor(s.pcs[t])
    requires !s.sigint && Covered(s)
    ensures Covered(ActShutdown(s, t, wake))
  {
    var s1 := ActShutdown(s, t, wake);
    if s.pcs[t].SBroadcast? {
      CountNone(SleepingWorkers, s1.pcs);
      var pcs := WakeWorkers(s.pcs);
      BroadcastCounts(SleepingAcceptors, s.pcs);
      BroadcastCounts(WokenAcceptors, s.pcs);
      BroadcastCounts(PendingTakes, s.pcs);
      AcceptorsBalanced(s.(pcs := pcs), s1, t, SLeave);
    } else {
      Balanced(s, s1, t, s1.pcs[t]);
    }
  }

  lemma WakeupStep(s: State, l: Label)
    requires PlacesOk(s) && Covered(s) && Enabled(s, l)
    ensures Covered(Apply(s, l))
  {
    hide ActWorker, ActAcceptor, ActShutdown, WorkersCovered, AcceptorsCovered, Consistent;
    if !s.sigint {
      match l
      case Interrupt =>
      case Spurious(t) => Balanced(s, Apply(s, l), t, Woken(s.pcs[t]));
      case Accept(t, fd) => Balanced(s, Apply(s, l), t, AEnter(fd));
      case Fails(t) => Balanced(s, Apply(s, l), t, SEnter);
      case Finishes(t) => Balanced(s, Apply(s, l), t, WTop);
      case Act(t, wake) =>
        assert Knows(s, s.pcs[t]);
        ActCovered(s, t, wake);
    } else {
      InterruptLasts(s, l);
    }
  }

  lemma ActCovered(s: State, t: nat, wake: Option<nat>)
    requires Enabled(s, Act(t, wake)) && !s.sigint && Covered(s) && Knows(s, s.pcs[t])
    ensures Covered(Apply(s, Act(t, wake)))
  {
    hide ActWorker, ActAcceptor, ActShutdown, Covered;
    if s.pcs[t].WSignal? {
      TakeSignalled(s, t, wake);
    } else if s.pcs[t].ASignal? {
      PutSignalled(s, t, wake);
    } else if IsWorker(s.pcs[t]) {
      WorkerCovered(s, t, wake);
    } else if IsAcceptor(s.pcs[t]) {
      AcceptorCovered(s, t, wake);
    } else {
      ShutdownCovered(s, t, wake);
    }
  }

  lemma InterruptLasts(s: State, l: Label)
    requires Enabled(s, l) && s.sigint
    ensures Apply(s, l).sigint
  {
    hide Consistent, WakeWorkers;
  }
}
