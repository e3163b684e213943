/** Inductive invariants of the queue monitor, over every interleaving. */
module MonitorSafety {
  import opened Wrappers
  import opened Ring
  import opened Monitor

  // ---------------------------------------------------------------- mutual exclusion

  /** The holder of the mutex is the one thread inside a critical section. */
  ghost predicate MutexOk(s: State) {
    && (s.holder.Some? ==> s.holder.value < |s.pcs|)
    && forall t :: 0 <= t < |s.pcs| ==> (Holding(s.pcs[t]) <==> s.holder == Some(t))
  }

  /** All threads but `t` are where they were, or have been woken. */
  ghost predicate OthersStay(s: State, s1: State, t: nat) {
    && t < |s.pcs| == |s1.pcs|
    && forall u :: 0 <= u < |s.pcs| && u != t ==> s1.pcs[u] == s.pcs[u] || s1.pcs[u] == Woken(s.pcs[u])
  }

  /** The mutex changes hands as the mover's places say. */
  predicate HandsOver(s: State, s1: State, t: nat)
    requires t < |s.pcs| == |s1.pcs|
  {
    && s1.holder == (if Holding(s1.pcs[t]) then Some(t) else if Holding(s.pcs[t]) then None else s.holder)
    && (Holding(s1.pcs[t]) ==> Holding(s.pcs[t]) || s.holder == None)
  }

  lemma WorkerMoves(s: State, t: nat, wake: Option<nat>)
    requires Enabled(s, Act(t, wake)) && IsWorker(s.pcs[t]) && (Holding(s.pcs[t]) ==> s.holder == Some(t))
    ensures var s1 := ActWorker(s, t, wake);
            OthersStay(s, s1, t) && HandsOver(s, s1, t)
  {
    hide Consistent, Take, Next, WakesWorker;
  }

  lemma AcceptorMoves(s: State, t: nat, wake: Option<nat>)
    requires Enabled(s, Act(t, wake)) && IsAcceptor(s.pcs[t]) && (Holding(s.pcs[t]) ==> s.holder == Some(t))
    ensures var s1 := ActAcceptor(s, t, wake);
            OthersStay(s, s1, t) && HandsOver(s, s1, t)
  {
    hide Consistent, Put;
  }

  lemma ShutdownMoves(s: State, t: nat, wake: Option<nat>)
    requires Enabled(s, Act(t, wake)) && !IsWorker(s.pcs[t]) && !IsAcceptor(s.pcs[t])
    requires Holding(s.pcs[t]) ==> s.holder == Some(t)
    ensures var s1 := ActShutdown(s, t, wake);
            && OthersStay(s, s1, t) && HandsOver(s, s1, t)
            && s1.ring == s.ring && s1.pushed == s.pushed && s1.taken == s.taken
            && s1.returned == s.returned && s1.sigint == s.sigint
            && (s1.pcs[t].SBroadcast? || s1.pcs[t].SLeave? || s1.pcs[t].SDone?)
  {
  }

  lemma StepMoves(s: State, l: Label)
    requires MutexOk(s) && Enabled(s, l) && !l.Interrupt?
    ensures OthersStay(s, Apply(s, l), l.t) && HandsOver(s, Apply(s, l), l.t)
  {
    hide ActWorker, ActAcceptor, ActShutdown;
    if l.Act? {
      if IsWorker(s.pcs[l.t]) {
        WorkerMoves(s, l.t, l.wake);
      } else if IsAcceptor(s.pcs[l.t]) {
        AcceptorMoves(s, l.t, l.wake);
      } else {
        ShutdownMoves(s, l.t, l.wake);
      }
    }
  }

  lemma MutexStep(s: State, l: Label)
    requires MutexOk(s) && Enabled(s, l)
    ensures MutexOk(Apply(s, l))
  {
    hide ActWorker, ActAcceptor, ActShutdown, Enabled;
    if !l.Interrupt? {
      StepMoves(s, l);
      var s1 := Apply(s, l);
      forall u | 0 <= u < |s1.pcs| && u != l.t
        ensures Holding(s1.pcs[u]) <==> Holding(s.pcs[u])
      {
        assert s1.pcs[u] == s.pcs[u] || s1.pcs[u] == Woken(s.pcs[u]);
      }
    }
  }

  // ---------------------------------------------------------------- what a place implies

  /** What a thread at `pc` knows about the queue. */
  predicate Knows(s: State, pc: Pc) {
    match pc
    case WTest => s.ring.size == 0
    case WAbout => s.ring.size == 0
    case WCheck(_) => s.ring.size > 0 || s.sigint
    case WTake(_) => s.ring.size > 0
    case ATest(_) => s.ring.size == |s.ring.fds|
    case AAbout(_) => s.ring.size == |s.ring.fds|
    case ACheck(_, _) => s.ring.size < |s.ring.fds| || s.sigint
    case APut(_, _) => s.ring.size < |s.ring.fds|
    case _ => true
  }

  ghost predicate PlacesOk(s: State) {
    && Consistent(s.ring)
    && forall t :: 0 <= t < |s.pcs| ==> Knows(s, s.pcs[t])
  }

  lemma OutsideKnowsNothing(s: State, pc: Pc)
    requires !Holding(pc)
    ensures Knows(s, pc)
  {
  }

  /** Other threads keep their knowledge: unless the ring changed, in which case they
      are outside the monitor. */
  lemma OthersKnow(s: State, s1: State, t: nat)
    requires MutexOk(s) && PlacesOk(s) && OthersStay(s, s1, t)
    requires s1.sigint == s.sigint
    requires s1.ring == s.ring || (Holding(s.pcs[t]) && Consistent(s1.ring))
    requires Knows(s1, s1.pcs[t])
    ensures PlacesOk(s1)
  {
    forall u | 0 <= u < |s1.pcs|
      ensures Knows(s1, s1.pcs[u])
    {
      if u != t {
        assert Knows(s, s.pcs[u]);
        assert s1.pcs[u] == s.pcs[u] || s1.pcs[u] == Woken(s.pcs[u]);
        if !Holding(s1.pcs[u]) {
          OutsideKnowsNothing(s1, s1.pcs[u]);
        }
      }
    }
  }

  /** The mover arrives where its new place says. */
  lemma WorkerKnows(s: State, t: nat, wake: Option<nat>)
    requires Enabled(s, Act(t, wake)) && IsWorker(s.pcs[t]) && Knows(s, s.pcs[t]) && Consistent(s.ring)
    ensures var s1 := ActWorker(s, t, wake);
            && t < |s1.pcs| && Knows(s1, s1.pcs[t]) && s1.sigint == s.sigint
            && Consistent(s1.ring) && (s1.ring == s.ring || Holding(s.pcs[t]))
  {
    hide Consistent, WakesWorker;
    if s.pcs[t].WTake? {
      TakeRemoves(s.ring);
    }
  }

  lemma AcceptorKnows(s: State, t: nat, wake: Option<nat>)
    requires Enabled(s, Act(t, wake)) && IsAcceptor(s.pcs[t]) && Knows(s, s.pcs[t]) && Consistent(s.ring)
    ensures var s1 := ActAcceptor(s, t, wake);
            && t < |s1.pcs| && Knows(s1, s1.pcs[t]) && s1.sigint == s.sigint
            && Consistent(s1.ring) && (s1.ring == s.ring || Holding(s.pcs[t]))
  {
    if s.pcs[t].APut? {
      PutKnows(s, t, wake);
    } else {
      assert s.ring.size <= |s.ring.fds|;
      hide Consistent, WakesAcceptor, Put;
    }
  }

  lemma PutKnows(s: State, t: nat, wake: Option<nat>)
    requires Enabled(s, Act(t, wake)) && s.pcs[t].APut?
    ensures var s1 := ActAcceptor(s, t, wake);
            && t < |s1.pcs| && s1.pcs[t].ASignal? && s1.sigint == s.sigint && Consistent(s1.ring)
  {
    hide Consistent, WakesAcceptor, WakesWorker, Put;
    PutAppends(s.ring, s.pcs[t].fd);
  }

  lemma HolderIs(s: State, t: nat)
    requires MutexOk(s) && t < |s.pcs|
    ensures Holding(s.pcs[t]) ==> s.holder == Some(t)
  {
  }

  lemma PlacesStep(s: State, l: Label)
    requires MutexOk(s) && PlacesOk(s) && Enabled(s, l)
    ensures PlacesOk(Apply(s, l))
  {
    hide ActWorker, ActAcceptor, ActShutdown, Consistent, MutexOk, OthersStay;
    if l.Interrupt? {
      assert forall t :: 0 <= t < |s.pcs| ==> Knows(s, s.pcs[t]);
    } else {
      StepMoves(s, l);
      if l.Act? {
        assert Knows(s, s.pcs[l.t]);
        if IsWorker(s.pcs[l.t]) {
          WorkerKnows(s, l.t, l.wake);
        } else if IsAcceptor(s.pcs[l.t]) {
          AcceptorKnows(s, l.t, l.wake);
        } else {
          assert Holding(s.pcs[l.t]) ==> s.holder == Some(l.t) by { HolderIs(s, l.t); }
          ShutdownMoves(s, l.t, l.wake);
        }
      }
      OthersKnow(s, Apply(s, l), l.t);
    }
  }

  // ---------------------------------------------------------------- first in, first out

  function Conns(taken: seq<(nat, nat)>): (fds: seq<nat>)
    ensures |fds| == |taken|
  {
    seq(|taken|, i requires 0 <= i < |taken| => taken[i].1)
  }

  /** Connections taken, in order, followed by those still queued, are the connections
      enqueued. */
  ghost predicate FifoOk(s: State) {
    && Consistent(s.ring)
    && Conns(s.taken) + Items(s.ring) == s.pushed
  }

  lemma FifoStep(s: State, l: Label)
    requires PlacesOk(s) && FifoOk(s) && Enabled(s, l)
    ensures FifoOk(Apply(s, l))
  {
    hide Items;
    if l.Act? && s.pcs[l.t].WTake? {
      TakeRemoves(s.ring);
      var fd := Next(s.ring);
      assert Conns(s.taken + [(l.t, fd)]) == Conns(s.taken) + [fd];
      var a, b := Conns(s.taken), Items(Take(s.ring));
      assert a + ([fd] + b) == (a + [fd]) + b;
    } else if l.Act? && s.pcs[l.t].APut? {
      PutAppends(s.ring, s.pcs[l.t].fd);
      var a, b := Conns(s.taken), Items(s.ring);
      assert (a + b) + [s.pcs[l.t].fd] == a + (b + [s.pcs[l.t].fd]);
    } else {
      RingUntouched(s, l);
    }
  }

  lemma RingUntouched(s: State, l: Label)
    requires Enabled(s, l) && !(l.Act? && (s.pcs[l.t].WTake? || s.pcs[l.t].APut?))
    ensures var s1 := Apply(s, l);
            s1.ring == s.ring && s1.taken == s.taken && s1.pushed == s.pushed
  {
    hide ActWorker, ActAcceptor;
    if l.Act? && IsWorker(s.pcs[l.t]) {
      WorkerLeavesRing(s, l.t, l.wake);
    } else if l.Act? && IsAcceptor(s.pcs[l.t]) {
      AcceptorLeavesRing(s, l.t, l.wake);
    }
  }

  lemma WorkerLeavesRing(s: State, t: nat, wake: Option<nat>)
    requires Enabled(s, Act(t, wake)) && !s.pcs[t].WTake?
    ensures var s1 := ActWorker(s, t, wake);
            s1.ring == s.ring && s1.taken == s.taken && s1.pushed == s.pushed
  {
  }

  lemma AcceptorLeavesRing(s: State, t: nat, wake: Option<nat>)
    requires Enabled(s, Act(t, wake)) && !s.pcs[t].APut?
    ensures var s1 := ActAcceptor(s, t, wake);
            s1.ring == s.ring && s1.taken == s.taken && s1.pushed == s.pushed
  {
  }

  // ---------------------------------------------------------------- hand-over

  /** The connections that pops have returned, with the workers that got them. */
  function Delivered(log: seq<(nat, Option<nat>)>): seq<(nat, nat)> {
    if log == [] then []
    else
      var (t, result) := log[|log| - 1];
      Delivered(log[..|log| - 1]) + if result.Some? then [(t, result.value)] else []
  }

  function Carrying(t: nat, pc: Pc): seq<(nat, nat)> {
    if pc.WSignal? then [(t, pc.fd)]
    else if pc.WLeave? && pc.result.Some? then [(t, pc.result.value)]
    else []
  }

  /** The connection taken by the worker inside the monitor, if it has one. */
  function InHand(s: State): seq<(nat, nat)> {
    if s.holder.Some? && s.holder.value < |s.pcs| then Carrying(s.holder.value, s.pcs[s.holder.value]) else []
  }

  /** What was taken has been returned to the worker that took it, in the same order,
      or is in the hands of the worker inside the monitor. */
  ghost predicate HandedOk(s: State) {
    Delivered(s.returned) + InHand(s) == s.taken
  }

  lemma DeliveredSnoc(log: seq<(nat, Option<nat>)>, t: nat, result: Option<nat>)
    ensures Delivered(log + [(t, result)]) == Delivered(log) + if result.Some? then [(t, result.value)] else []
  {
    assert (log + [(t, result)])[..|log|] == log;
  }

  /** Steps that neither take nor return leave the hands alone. */
  lemma HandsUnchanged(s: State, l: Label)
    requires MutexOk(s) && Enabled(s, l)
    requires !(l.Act? && (s.pcs[l.t].WTake? || s.pcs[l.t].WLeave?))
    ensures var s1 := Apply(s, l);
            s1.taken == s.taken && s1.returned == s.returned && InHand(s1) == InHand(s)
  {
    hide ActWorker, ActAcceptor, ActShutdown;
    if !l.Interrupt? {
      StepMoves(s, l);
      MoverKeepsHands(s, l);
      var s1 := Apply(s, l);
      if s.holder.Some? && s.holder.value != l.t {
        var h := s.holder.value;
        assert Holding(s.pcs[h]);
        assert s1.pcs[h] == s.pcs[h];
      }
    }
  }

  lemma MoverKeepsHands(s: State, l: Label)
    requires Enabled(s, l) && !l.Interrupt?
    requires !(l.Act? && (s.pcs[l.t].WTake? || s.pcs[l.t].WLeave?))
    ensures var s1 := Apply(s, l);
            && s1.taken == s.taken && s1.returned == s.returned
            && l.t < |s1.pcs| && Carrying(l.t, s1.pcs[l.t]) == Carrying(l.t, s.pcs[l.t])
            && (Carrying(l.t, s.pcs[l.t]) != [] ==> s1.holder == s.holder)
  {
    hide ActWorker, ActAcceptor;
    if l.Act? && IsWorker(s.pcs[l.t]) {
      WorkerKeepsHands(s, l.t, l.wake);
    } else if l.Act? && IsAcceptor(s.pcs[l.t]) {
      AcceptorKeepsHands(s, l.t, l.wake);
    }
  }

  lemma WorkerKeepsHands(s: State, t: nat, wake: Option<nat>)
    requires Enabled(s, Act(t, wake)) && IsWorker(s.pcs[t]) && !s.pcs[t].WTake? && !s.pcs[t].WLeave?
    ensures var s1 := ActWorker(s, t, wake);
            && s1.taken == s.taken && s1.returned == s.returned
            && t < |s1.pcs| && Carrying(t, s1.pcs[t]) == Carrying(t, s.pcs[t])
            && (Carrying(t, s.pcs[t]) != [] ==> s1.holder == s.holder)
  {
  }

  lemma AcceptorKeepsHands(s: State, t: nat, wake: Option<nat>)
    requires Enabled(s, Act(t, wake)) && IsAcceptor(s.pcs[t])
    ensures var s1 := ActAcceptor(s, t, wake);
            && s1.taken == s.taken && s1.returned == s.returned
            && t < |s1.pcs| && Carrying(t, s1.pcs[t]) == Carrying(t, s.pcs[t]) == []
  {
    hide Consistent, Put;
  }

  lemma HandedStep(s: State, l: Label)
    requires MutexOk(s) && HandedOk(s) && Enabled(s, l)
    ensures HandedOk(Apply(s, l))
  {
    hide Delivered, Consistent, Take, Next;
    if l.Act? && s.pcs[l.t].WTake? {
      HolderIs(s, l.t);
      assert InHand(s) == [];
    } else if l.Act? && s.pcs[l.t].WLeave? {
      HolderIs(s, l.t);
      DeliveredSnoc(s.returned, l.t, s.pcs[l.t].result);
    } else {
      HandsUnchanged(s, l);
    }
  }

  // ---------------------------------------------------------------- shutdown

  /** After a broadcast with the flag set, these places are never occupied again: no
      worker waits, nobody is about to wait, to change the queue, or to return a
      connection. */
  predicate Quiet(pc: Pc) {
    && !pc.WAsleep? && !pc.WAbout? && !pc.WTake? && !pc.WSignal?
    && (pc.WLeave? ==> pc.result == None)
    && !pc.AAbout? && !pc.APut? && !pc.ASignal?
  }

  ghost predicate DownOk(s: State) {
    s.down ==> s.sigint && forall t :: 0 <= t < |s.pcs| ==> Quiet(s.pcs[t])
  }

  lemma DownStep(s: State, l: Label)
    requires MutexOk(s) && DownOk(s) && Enabled(s, l)
    ensures DownOk(Apply(s, l))
  {
    var s1 := Apply(s, l);
    if s.down {
      DownStays(s, l);
    } else if s1.down {
      assert l.Act? && s.pcs[l.t].SBroadcast?;
      forall u | 0 <= u < |s1.pcs|
        ensures Quiet(s1.pcs[u])
      {
        assert Holding(s.pcs[u]) <==> s.holder == Some(u);
        assert Holding(s.pcs[l.t]) <==> s.holder == Some(l.t);
      }
    }
  }

  /** A step after shutdown touches neither the queue nor its logs, puts no worker to
      sleep, and can only make a pop return nothing. */
  lemma DownStays(s: State, l: Label)
    requires s.down && DownOk(s) && Enabled(s, l)
    ensures var s1 := Apply(s, l);
            && s1.down && DownOk(s1)
            && s1.ring == s.ring && s1.pushed == s.pushed && s1.taken == s.taken
            && (s1.returned == s.returned || exists t :: s1.returned == s.returned + [(t, None)])
  {
    var s1 := Apply(s, l);
    if l.Act? {
      assert Quiet(s.pcs[l.t]);
    }
    forall u | 0 <= u < |s1.pcs|
      ensures Quiet(s1.pcs[u])
    {
      assert Quiet(s.pcs[u]);
    }
  }
}
