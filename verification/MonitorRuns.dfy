/** The queue monitor over whole runs: what holds in every reachable state, and what
    shutdown guarantees from then on. */
module MonitorRuns {
  import opened Wrappers
  import opened Ring
  import opened Monitor
  import opened MonitorSafety
  import opened MonitorWakeups

  ghost predicate Invariant(s: State) {
    MutexOk(s) && PlacesOk(s) && FifoOk(s) && HandedOk(s) && DownOk(s) && Covered(s)
  }

  lemma StartInvariant(s: State)
    requires Start(s)
    ensures Invariant(s)
  {
    hide Count;
    CountNone(SleepingWorkers, s.pcs);
    CountNone(SleepingAcceptors, s.pcs);
  }

  lemma StepInvariant(s: State, l: Label)
    requires Invariant(s) && Enabled(s, l)
    ensures Invariant(Apply(s, l))
  {
    hide Apply, MutexOk, PlacesOk, FifoOk, HandedOk, DownOk, Covered;
    HandedStep(s, l);
    MutexStep(s, l);
    PlacesStep(s, l);
    FifoStep(s, l);
    DownStep(s, l);
    WakeupStep(s, l);
  }

  /** Every run keeps the invariant: any number of threads, any interleaving, with
      spurious wakeups and threads that overtake woken ones. */
  lemma {:induction false} RunInvariant(s: State, run: seq<Label>)
    requires Invariant(s) && Possible(s, run)
    ensures Invariant(After(s, run))
    decreases |run|
  {
    hide Apply, Invariant, Enabled;
    if run != [] {
      StepInvariant(s, run[0]);
      RunInvariant(Apply(s, run[0]), run[1..]);
    }
  }

  /** No lost wakeup, in every reachable state before the interrupt: while a worker
      sleeps, queued connections do not outnumber the workers woken and still to run;
      while an acceptor sleeps, free slots do not outnumber the acceptors woken and
      still to run. A thread inside the monitor between its change and its signal
      counts for the one it is about to wake. */
  lemma NoLostWakeup(s: State, run: seq<Label>)
    requires Start(s) && Possible(s, run) && !After(s, run).sigint
    ensures var z := After(s, run);
            && ((exists t :: 0 <= t < |z.pcs| && z.pcs[t].WAsleep?) ==>
                  z.ring.size <= Count(WokenWorkers, z.pcs) + Count(PendingPuts, z.pcs))
            && ((exists t :: 0 <= t < |z.pcs| && z.pcs[t].AAsleep?) ==>
                  |z.ring.fds| - z.ring.size <= Count(WokenAcceptors, z.pcs) + Count(PendingTakes, z.pcs))
  {
    hide Apply, Count, Start, Possible;
    StartInvariant(s);
    RunInvariant(s, run);
    var z := After(s, run);
    CountNone(SleepingWorkers, z.pcs);
    CountNone(SleepingAcceptors, z.pcs);
  }

  /** In particular, with the mutex free: a sleeping worker and a waiting connection
      mean that some worker is on its way. */
  lemma SleeperIsRelieved(s: State, run: seq<Label>, t: nat)
    requires Start(s) && Possible(s, run)
    requires var z := After(s, run);
             !z.sigint && z.holder == None && t < |z.pcs| && z.pcs[t].WAsleep? && z.ring.size > 0
    ensures exists u :: 0 <= u < |After(s, run).pcs| && After(s, run).pcs[u].WWoken?
  {
    hide Apply, Count, Start, Possible, After;
    NoLostWakeup(s, run);
    StartInvariant(s);
    RunInvariant(s, run);
    var z := After(s, run);
    CountNone(PendingPuts, z.pcs);
    CountNone(WokenWorkers, z.pcs);
    var u :| 0 <= u < |z.pcs| && (In(WokenWorkers, z.pcs[u]) || In(PendingPuts, z.pcs[u]));
    assert Holding(z.pcs[u]) <==> z.holder == Some(u);
  }

  /** Bounded first-in first-out over every interleaving: the k-th connection taken is
      the k-th enqueued, and the rest is queued in order. Each is handed to the one
      worker that took it: with the mutex free, what pops have returned is exactly what
      was taken, so the k-th connection returned is the k-th enqueued. */
  lemma FirstInFirstOut(s: State, run: seq<Label>)
    requires Start(s) && Possible(s, run)
    ensures var z := After(s, run);
            && Consistent(z.ring)
            && Conns(z.taken) + Items(z.ring) == z.pushed
            && (forall k :: 0 <= k < |z.taken| ==> z.taken[k].1 == z.pushed[k])
            && |z.pushed| <= |z.taken| + |z.ring.fds|
            && Delivered(z.returned) <= z.taken
            && (z.holder == None ==> Delivered(z.returned) == z.taken)
  {
    hide Apply, Start, Possible, Items;
    StartInvariant(s);
    RunInvariant(s, run);
    var z := After(s, run);
    forall k | 0 <= k < |z.taken|
      ensures z.taken[k].1 == z.pushed[k]
    {
      assert z.pushed[k] == (Conns(z.taken) + Items(z.ring))[k] == Conns(z.taken)[k];
    }
  }

  /** A thread about to insert or remove never finds the queue full or empty: the
      steps that index the ring are always possible. */
  lemma IndexingIsSafe(s: State, run: seq<Label>, t: nat)
    requires Start(s) && Possible(s, run) && t < |After(s, run).pcs|
    ensures var z := After(s, run);
            z.pcs[t].WTake? || z.pcs[t].APut? ==> Enabled(z, Act(t, None))
  {
    hide Apply, Start, Possible, After, FifoOk, Covered, HandedOk, DownOk, MutexOk, Consistent;
    StartInvariant(s);
    RunInvariant(s, run);
    assert Knows(After(s, run), After(s, run).pcs[t]);
  }

  // ---------------------------------------------------------------- shutdown

  /** Entries that report no connection. */
  predicate OnlyNone(log: seq<(nat, Option<nat>)>) {
    forall i :: 0 <= i < |log| ==> log[i].1 == None
  }

  /** Shutdown safety. Once `queue_shutdown` has broadcast with the flag set: the queue
      and its contents never change again, no worker sleeps or will sleep on it, and
      every pop that returns from then on returns nothing. */
  lemma {:induction false} ShutdownIsFinal(s: State, run: seq<Label>)
    requires Invariant(s) && s.down && Possible(s, run)
    ensures var z := After(s, run);
            && z.down && z.sigint
            && z.ring == s.ring && z.pushed == s.pushed && z.taken == s.taken
            && (forall t :: 0 <= t < |z.pcs| ==> !z.pcs[t].WAsleep?)
            && |s.returned| <= |z.returned| && z.returned[..|s.returned|] == s.returned
            && OnlyNone(z.returned[|s.returned|..])
    decreases |run|
  {
    hide Apply, Enabled, Covered, FifoOk, HandedOk, MutexOk, PlacesOk;
    if run == [] {
      assert forall t :: 0 <= t < |s.pcs| ==> Quiet(s.pcs[t]);
    } else {
      var s1 := Apply(s, run[0]);
      StepInvariant(s, run[0]);
      DownStays(s, run[0]);
      ShutdownIsFinal(s1, run[1..]);
      LogGrows(s.returned, s1.returned, After(s, run).returned);
    }
  }

  lemma LogGrows(a: seq<(nat, Option<nat>)>, b: seq<(nat, Option<nat>)>, c: seq<(nat, Option<nat>)>)
    requires b == a || exists t :: b == a + [(t, None)]
    requires |b| <= |c| && c[..|b|] == b && OnlyNone(c[|b|..])
    ensures |a| <= |c| && c[..|a|] == a && OnlyNone(c[|a|..])
  {
    assert c[..|a|] == c[..|b|][..|a|] == a;
    forall i | 0 <= i < |c[|a|..]|
      ensures c[|a|..][i].1 == None
    {
      assert c[|a|..][i] == c[|a| + i];
      if |a| + i >= |b| {
        assert c[|a| + i] == c[|b|..][|a| + i - |b|];
      } else {
        assert c[|a| + i] == c[..|b|][|a| + i] == b[|a| + i];
      }
    }
  }
}
