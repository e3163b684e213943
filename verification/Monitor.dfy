/** The connection queue as a monitor: any number of accepting threads and workers
    (src/server.c) around the ring buffer, its mutex and its two condition variables
    (srclib/queue.c). A step is one access to shared state. */
module Monitor {
  import opened Wrappers
  import opened Ring

  /** Where a thread is. Workers run `queue_pop` in a loop (W…) and are busy with the
      connection they got; acceptors wait in `accept` and run `queue_push` in a loop (A…)
      and then `queue_shutdown` (S…). `woken` records that
      the thread has returned from a condition wait in this call. */
  datatype Pc =
    // while(!sigint) of a worker, and the call of queue_pop
    | WTop
    | WEnter
    | WLoop(woken: bool)
    | WTest
    | WAbout
    | WAsleep
    | WWoken
    | WCheck(woken: bool)
    | WTake(woken: bool)
    | WSignal(fd: nat)
    | WLeave(result: Option<nat>)
    | WBack(result: Option<nat>)
    | WBusy
    | WExit
    // while(!sigint) of main, and the calls of accept and queue_push
    | ATop
    | AAccept
    | AEnter(fd: nat)
    | ALoop(fd: nat, woken: bool)
    | ATest(fd: nat)
    | AAbout(fd: nat)
    | AAsleep(fd: nat)
    | AWoken(fd: nat)
    | ACheck(fd: nat, woken: bool)
    | APut(fd: nat, woken: bool)
    | ASignal
    | ALeave
    // queue_shutdown
    | SEnter
    | SBroadcast
    | SLeave
    | SDone

  /** The mutex is held between its acquisition and the unlock or wait. */
  predicate Holding(pc: Pc) {
    || pc.WLoop? || pc.WTest? || pc.WAbout? || pc.WCheck? || pc.WTake? || pc.WSignal? || pc.WLeave?
    || pc.ALoop? || pc.ATest? || pc.AAbout? || pc.ACheck? || pc.APut? || pc.ASignal? || pc.ALeave?
    || pc.SBroadcast? || pc.SLeave?
  }

  /** Shared state, thread states, and three logs: connections enqueued, connections
      taken (with the worker that took each), results returned by `queue_pop`. `down`
      records a broadcast of `queue_shutdown` that happened with `sigint` set. */
  datatype State = State(
    ring: Ring,
    holder: Option<nat>,
    pcs: seq<Pc>,
    sigint: bool,
    pushed: seq<nat>,
    taken: seq<(nat, nat)>,
    returned: seq<(nat, Option<nat>)>,
    down: bool)

  /** What happens next: the signal arrives, a wait returns without cause, an accept
      delivers a connection or fails, a worker gets done with its connection, or thread
      `t` goes on by itself; `wake` is the sleeper that a condition signal picks. */
  datatype Label =
    | Interrupt
    | Spurious(t: nat)
    | Accept(t: nat, fd: nat)
    | Fails(t: nat)
    | Finishes(t: nat)
    | Act(t: nat, wake: Option<nat>)

  predicate Start(s: State) {
    && s.ring == Empty(|s.ring.fds|)
    && s.holder == None && !s.sigint && !s.down
    && s.pushed == [] && s.taken == [] && s.returned == []
    && forall t :: 0 <= t < |s.pcs| ==> s.pcs[t] == WTop || s.pcs[t] == ATop
  }

  predicate SomeWorkerAsleep(s: State) {
    exists t :: 0 <= t < |s.pcs| && s.pcs[t].WAsleep?
  }

  predicate SomeAcceptorAsleep(s: State) {
    exists t :: 0 <= t < |s.pcs| && s.pcs[t].AAsleep?
  }

  /** A signal wakes some thread asleep on its condition, if there is one. */
  predicate WakesWorker(s: State, wake: Option<nat>) {
    match wake
    case None => !SomeWorkerAsleep(s)
    case Some(u) => u < |s.pcs| && s.pcs[u].WAsleep?
  }

  predicate WakesAcceptor(s: State, wake: Option<nat>) {
    match wake
    case None => !SomeAcceptorAsleep(s)
    case Some(u) => u < |s.pcs| && s.pcs[u].AAsleep?
  }

  predicate Enabled(s: State, l: Label) {
    match l
    case Interrupt => true
    case Spurious(t) => t < |s.pcs| && (s.pcs[t].WAsleep? || s.pcs[t].AAsleep?)
    case Accept(t, _) => t < |s.pcs| && s.pcs[t].AAccept?
    case Fails(t) => t < |s.pcs| && s.pcs[t].AAccept?
    case Finishes(t) => t < |s.pcs| && s.pcs[t].WBusy?
    case Act(t, wake) =>
      && t < |s.pcs|
      && match s.pcs[t]
         case WEnter => s.holder == None
         case WWoken => s.holder == None
         case AEnter(_) => s.holder == None
         case AWoken(_) => s.holder == None
         case SEnter => s.holder == None
         case WBusy => false
         case AAccept => false
         case WAsleep => false
         case AAsleep(_) => false
         case WExit => false
         case SDone => false
         case WTake(_) => Consistent(s.ring) && s.ring.size > 0
         case APut(_, _) => Consistent(s.ring) && s.ring.size < |s.ring.fds|
         case WSignal(_) => WakesAcceptor(s, wake)
         case ASignal => WakesWorker(s, wake)
         case _ => true
  }

  /** The same thread at another place. */
  function At(s: State, t: nat, pc: Pc): State
    requires t < |s.pcs|
  {
    s.(pcs := s.pcs[t := pc])
  }

  function Woken(pc: Pc): Pc {
    match pc
    case WAsleep => WWoken
    case AAsleep(fd) => AWoken(fd)
    case _ => pc
  }

  /** Thread `u`, if any, comes out of its wait. */
  function Waking(s: State, wake: Option<nat>): State
    requires wake.Some? ==> wake.value < |s.pcs|
  {
    match wake
    case None => s
    case Some(u) => At(s, u, Woken(s.pcs[u]))
  }

  /** All workers come out of their wait. */
  function WakeWorkers(pcs: seq<Pc>): seq<Pc> {
    seq(|pcs|, i requires 0 <= i < |pcs| => if pcs[i].WAsleep? then WWoken else pcs[i])
  }

  function ActWorker(s: State, t: nat, wake: Option<nat>): State
    requires Enabled(s, Act(t, wake))
  {
    match s.pcs[t]
    case WTop => At(s, t, if s.sigint then WExit else WEnter)
    case WEnter => At(s, t, WLoop(false)).(holder := Some(t))
    case WWoken => At(s, t, WLoop(true)).(holder := Some(t))
    case WLoop(woken) => At(s, t, if s.ring.size == 0 then WTest else WCheck(woken))
    case WTest => At(s, t, if s.sigint then WCheck(false) else WAbout)
    case WAbout => At(s, t, WAsleep).(holder := None)
    case WCheck(woken) => At(s, t, if s.sigint then WLeave(None) else WTake(woken))
    case WTake(_) =>
      var fd := Next(s.ring);
      At(s, t, WSignal(fd)).(ring := Take(s.ring), taken := s.taken + [(t, fd)])
    case WSignal(fd) => At(Waking(s, wake), t, WLeave(Some(fd)))
    case WLeave(result) => At(s, t, WBack(result)).(holder := None, returned := s.returned + [(t, result)])
    case WBack(_) => At(s, t, if s.sigint then WExit else WBusy)
    case _ => s
  }

  function ActAcceptor(s: State, t: nat, wake: Option<nat>): State
    requires Enabled(s, Act(t, wake))
  {
    match s.pcs[t]
    case ATop => At(s, t, if s.sigint then SEnter else AAccept)
    case AEnter(fd) => At(s, t, ALoop(fd, false)).(holder := Some(t))
    case AWoken(fd) => At(s, t, ALoop(fd, true)).(holder := Some(t))
    case ALoop(fd, woken) => At(s, t, if s.ring.size == |s.ring.fds| then ATest(fd) else ACheck(fd, woken))
    case ATest(fd) => At(s, t, if s.sigint then ACheck(fd, false) else AAbout(fd))
    case AAbout(fd) => At(s, t, AAsleep(fd)).(holder := None)
    case ACheck(fd, woken) => At(s, t, if s.sigint then ALeave else APut(fd, woken))
    case APut(fd, _) => At(s, t, ASignal).(ring := Put(s.ring, fd), pushed := s.pushed + [fd])
    case ASignal => At(Waking(s, wake), t, ALeave)
    case ALeave => At(s, t, ATop).(holder := None)
    case _ => s
  }

  function ActShutdown(s: State, t: nat, wake: Option<nat>): State
    requires Enabled(s, Act(t, wake))
  {
    match s.pcs[t]
    case SEnter => At(s, t, SBroadcast).(holder := Some(t))
    case SBroadcast => s.(pcs := WakeWorkers(s.pcs)[t := SLeave], down := s.down || s.sigint)
    case SLeave => At(s, t, SDone).(holder := None)
    case _ => s
  }

  predicate IsWorker(pc: Pc) {
    || pc.WTop? || pc.WEnter? || pc.WLoop? || pc.WTest? || pc.WAbout? || pc.WAsleep? || pc.WWoken?
    || pc.WCheck? || pc.WTake? || pc.WSignal? || pc.WLeave? || pc.WBack? || pc.WBusy? || pc.WExit?
  }

  predicate IsAcceptor(pc: Pc) {
    || pc.ATop? || pc.AAccept? || pc.AEnter? || pc.ALoop? || pc.ATest? || pc.AAbout? || pc.AAsleep? || pc.AWoken?
    || pc.ACheck? || pc.APut? || pc.ASignal? || pc.ALeave?
  }

  /** The state after a step. An accept loop whose accept fails goes on to shut down. While
      a thread waits in `accept` or for its peer, only the outside gets it on. */
  function Apply(s: State, l: Label): State
    requires Enabled(s, l)
  {
    match l
    case Interrupt => s.(sigint := true)
    case Spurious(t) => At(s, t, Woken(s.pcs[t]))
    case Accept(t, fd) => At(s, t, AEnter(fd))
    case Fails(t) => At(s, t, SEnter)
    case Finishes(t) => At(s, t, WTop)
    case Act(t, wake) =>
      if IsWorker(s.pcs[t]) then ActWorker(s, t, wake)
      else if IsAcceptor(s.pcs[t]) then ActAcceptor(s, t, wake)
      else ActShutdown(s, t, wake)
  }

  /** A sequence of steps, each possible where it happens. */
  predicate Possible(s: State, run: seq<Label>)
    decreases |run|
  {
    run == [] || (Enabled(s, run[0]) && Possible(Apply(s, run[0]), run[1..]))
  }

  function After(s: State, run: seq<Label>): State
    requires Possible(s, run)
    decreases |run|
  {
    if run == [] then s else After(Apply(s, run[0]), run[1..])
  }
}
