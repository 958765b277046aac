/** Deadlock freedom and shutdown of the worker pool: where the pool can stop, how long it can
    still run after the signal, and the one way in which it can hang. */
module PoolLiveness {
  import opened Types
  import opened Pool

  // ---------------------------------------------------------------- no deadlock

  /** Steps that no thread takes by itself: the signal, and spurious wakeups. */
  predicate Spurious(step: Step) { step.Terminate? || step.MainWakeup? || step.Wakeup? }

  ghost predicate Stuck(s: Pool) {
    forall step | Enabled(s, step) :: Spurious(step)
  }

  predicate AllExited(ws: seq<Worker>) {
    forall k | 0 <= k < |ws| :: ws[k] == Exited
  }

  /** The acceptor waits for a free record after the last worker has left. */
  predicate Hung(s: Pool) {
    s.acceptor.FreeAsleep? && AllExited(s.workers)
  }

  predicate Waits(x: Worker) { x.SemWait? || x.Asleep? || x.Exited? }

  lemma WorkerCanStep(s: Pool, w: nat) returns (step: Step)
    requires Inv(s) && w < |s.workers| && !Waits(s.workers[w])
    ensures Enabled(s, step) && !Spurious(step)
  {
    var wake := SomeWake(s.workers);
    step := Work(w, true, wake);
    if Busy(s.workers[w]) {
      WorkersNeverWaitToPush(s, w);
    }
  }

  lemma AcceptorCanStep(s: Pool) returns (step: Step)
    requires Inv(s) && !s.acceptor.FreeAsleep? && !s.acceptor.Joining? && !s.acceptor.Joined?
    ensures Enabled(s, step) && !Spurious(step)
  {
    var wake := SomeWake(s.workers);
    step := Main(0, wake);
    if Held(s.acceptor).Some? {
      AcceptorNeverWaitsToPush(s);
    }
  }

  lemma {:induction false} NoneOf(ws: seq<Worker>, weight: Worker -> nat)
    requires forall k | 0 <= k < |ws| :: weight(ws[k]) == 0
    ensures Sum(ws, weight) == 0
  {
    if ws != [] {
      NoneOf(ws[..|ws| - 1], weight);
    }
  }

  /** When every worker waits and the semaphore is zero, every worker has exited, or the acceptor
      is still in its loop with records to hand out. */
  lemma NobodySleeps(s: Pool)
    requires Inv(s) && (forall k | 0 <= k < |s.workers| :: Waits(s.workers[k]))
    requires s.acceptor.FreeAsleep? || s.acceptor.Joining?
    ensures Sum(s.workers, Popper) == 0 && Sum(s.workers, Hands) == 0
    ensures s.sem + Sum(s.workers, Gone) == |s.taken| + Extra(s.acceptor, |s.workers|)
    ensures forall k | 0 <= k < |s.workers| :: s.workers[k] != Asleep
  {
    NoneOf(s.workers, Pusher);
    NoneOf(s.workers, Waker);
    NoneOf(s.workers, Checking);
    NoneOf(s.workers, Hands);
    if k :| 0 <= k < |s.workers| && s.workers[k] == Asleep {
      SumAtLeast(s.workers, k, Sleeper);
      SumAtLeast(s.workers, k, Popper);
      assert false;
    }
    NoneOf(s.workers, Popper);
  }

  lemma FindStep(s: Pool) returns (step: Step)
    requires Inv(s) && |s.workers| < Total(s) && !s.acceptor.Joined? && !Hung(s)
    ensures Enabled(s, step) && !Spurious(step)
  {
    hide Inv;
    if w :| 0 <= w < |s.workers| && !Waits(s.workers[w]) {
      step := WorkerCanStep(s, w);
    } else if !s.acceptor.FreeAsleep? && !s.acceptor.Joining? {
      step := AcceptorCanStep(s);
    } else if AllExited(s.workers) {
      step := Main(0, None);
    } else {
      step := SemaphoreLets(s);
    }
  }

  lemma SemaphoreLets(s: Pool) returns (step: Step)
    requires Inv(s) && |s.workers| < Total(s) && !AllExited(s.workers)
    requires forall k | 0 <= k < |s.workers| :: Waits(s.workers[k])
    requires s.acceptor.FreeAsleep? || s.acceptor.Joining?
    ensures Enabled(s, step) && !Spurious(step)
  {
    NobodySleeps(s);
    GoneBound(s.workers);
    var w :| 0 <= w < |s.workers| && s.workers[w] != Exited;
    step := Work(w, false, None);
  }

  /** The pool stops exactly when the joins are done, or when the signal came while the acceptor
      was waiting for a free record and no worker is left to give one back.  Before the signal it
      never stops. */
  lemma StuckExactly(s: Pool)
    requires Inv(s) && |s.workers| < Total(s)
    ensures Stuck(s) <==> s.acceptor.Joined? || Hung(s)
    ensures Stuck(s) && |s.workers| > 0 ==> s.term
  {
    GoneBound(s.workers);
    if !s.acceptor.Joined? && !Hung(s) {
      var step := FindStep(s);
      assert Enabled(s, step) && !Spurious(step);
    } else {
      forall step | Enabled(s, step) ensures Spurious(step) {}
    }
  }

  // ---------------------------------------------------------------- shutdown

  /** Steps a worker may still take once term is set, if it is not woken for nothing. */
  function Rank(x: Worker): nat {
    match x
    case Exited => 0
    case TermCheck => 1
    case SemWait => 2
    case Finishing(_) => 4
    case Requeueing(_) => 4
    case Posting(_) => 5
    case Running(_) => 6
    case HasJob(_) => 7
    case Asleep => 8
    case Woken => 9
    case Popping => 10
  }

  function MainRank(a: Acceptor, n: nat): nat {
    match a
    case Joined(_) => 0
    case Joining(_) => 1
    case Stopping(k, _) => if k < n then 2 + n - k else 2
    case Listening => n + 3
    case HasFree(_, _) => n + 3
    case Accepted(_) => n + 3
    case Polling => n + 4
    case FreeAsleep(_) => n + 4
    case Handing(_) => n + 5
    case FreeWoken(_) => n + 5
    case FreePopping(_) => n + 6
    case Announcing(_) => n + 6
  }

  function Measure(s: Pool): nat {
    Sum(s.workers, Rank) + MainRank(s.acceptor, |s.workers|)
  }

  lemma SignalledRank(ws: seq<Worker>, wake: Option<nat>)
    requires GoodWake(ws, wake)
    ensures Sum(Signalled(ws, wake), Rank) <= Sum(ws, Rank) + 1
  {
    if wake.Some? {
      SumSet(ws, wake.value, Woken, Rank);
    }
  }

  lemma MainShrinks(s: Pool, fd: int, wake: Option<nat>)
    requires s.term && CanMain(s, fd, wake)
    ensures Measure(DoMain(s, fd, wake)) < Measure(s)
  {
    hide Sum, GoodWake;
    if s.acceptor.Handing? {
      SignalledRank(s.workers, wake);
    }
  }

  lemma WorkShrinks(s: Pool, w: nat, done: bool, wake: Option<nat>)
    requires s.term && CanWork(s, w, wake)
    ensures Measure(DoWork(s, w, done, wake)) < Measure(s)
  {
    hide Sum;
    var t := DoWork(s, w, done, wake);
    var ws := s.workers;
    if UsesTaken(s, w) {
      SignalledRank(ws, wake);
      ws := Signalled(ws, wake);
    }
    SumSet(ws, w, t.workers[w], Rank);
  }

  lemma WakeupsCostOne(s: Pool, step: Step)
    requires Enabled(s, step) && Spurious(step)
    ensures Measure(Apply(s, step)) <= Measure(s) + 1
  {
    if step.Wakeup? {
      SumSet(s.workers, step.w, Woken, Rank);
    }
  }

  function Spurs(steps: seq<Step>): nat {
    if steps == [] then 0 else (if Spurious(steps[0]) then 1 else 0) + Spurs(steps[1..])
  }

  /** Once term is set, no run is longer than the measure of its first state, but for spurious
      wakeups, each of which can cost one more step. */
  lemma {:induction false} RunsAreShort(s: Pool, steps: seq<Step>)
    requires s.term && IsRun(s, steps)
    ensures |steps| + Measure(After(s, steps)) <= Measure(s) + 2 * Spurs(steps)
    decreases |steps|
  {
    if steps != [] {
      hide Measure, Enabled, Apply;
      var t := Apply(s, steps[0]);
      OneStep(s, steps[0]);
      RunsAreShort(t, steps[1..]);
    }
  }

  lemma OneStep(s: Pool, step: Step)
    requires s.term && Enabled(s, step)
    ensures var t := Apply(s, step);
            t.term && Measure(t) + 1 <= Measure(s) + if Spurious(step) then 2 else 0
  {
    hide Measure, GoodWake;
    match step {
      case Main(fd, wake) => MainShrinks(s, fd, wake);
      case Work(w, done, wake) => WorkShrinks(s, w, done, wake);
      case _ => WakeupsCostOne(s, step);
    }
  }

  /** Having left its loop, the acceptor never goes back. */
  lemma {:induction false} LoopLeftForGood(s: Pool, steps: seq<Step>)
    requires IsRun(s, steps) && LeftLoop(s.acceptor) && s.term
    ensures LeftLoop(After(s, steps).acceptor) && After(s, steps).term
    decreases |steps|
  {
    if steps != [] {
      LoopLeftForGood(Apply(s, steps[0]), steps[1..]);
    }
  }

  /** Shutdown: from any reachable state in which the acceptor has left its loop, with any number
      of requests in flight, every run is at most 11 n + 3 steps long plus two for every spurious
      wakeup, and one that cannot go on has joined every worker. */
  lemma ShutdownCompletes(s: Pool, steps: seq<Step>)
    requires Inv(s) && |s.workers| < Total(s) && LeftLoop(s.acceptor) && IsRun(s, steps)
    ensures |steps| <= 11 * |s.workers| + 3 + 2 * Spurs(steps)
    ensures var t := After(s, steps);
            Stuck(t) <==> t.acceptor.Joined?
    ensures var t := After(s, steps);
            t.acceptor.Joined? ==> AllExited(t.workers)
  {
    RunsAreShort(s, steps);
    SumBound(s.workers, Rank, 10);
    RunKeeps(s, steps);
    LoopLeftForGood(s, steps);
    StuckExactly(After(s, steps));
    GoneBound(After(s, steps).workers);
  }

  /** After the signal alone, a run that cannot go on has joined every worker unless it hangs in
      the free queue. */
  lemma SignalStops(s: Pool, steps: seq<Step>)
    requires Inv(s) && |s.workers| < Total(s) && s.term && IsRun(s, steps)
    ensures |steps| <= 11 * |s.workers| + 6 + 2 * Spurs(steps)
    ensures var t := After(s, steps);
            Stuck(t) <==> t.acceptor.Joined? || Hung(t)
  {
    RunsAreShort(s, steps);
    SumBound(s.workers, Rank, 10);
    RunKeeps(s, steps);
    StuckExactly(After(s, steps));
  }

  // ---------------------------------------------------------------- when it can hang

  /** The acceptor is past the last test of term in front of the free queue, the queue is empty,
      and no worker is on its way to give a record back. */
  predicate Doomed(s: Pool) {
    && (s.acceptor.FreePopping? || s.acceptor.FreeAsleep? || s.acceptor.FreeWoken?)
    && s.free == [] && forall k | 0 <= k < |s.workers| :: !s.workers[k].Finishing?
  }

  lemma SafeStays(s: Pool, step: Step)
    requires s.term && !Doomed(s) && Enabled(s, step)
    ensures Apply(s, step).term && !Doomed(Apply(s, step))
  {
    var t := Apply(s, step);
    if k :| 0 <= k < |s.workers| && s.workers[k].Finishing? {
      if step.Work? && step.w == k {
        assert t.free != [];
      } else {
        assert t.workers[k] == s.workers[k];
      }
    }
  }

  lemma {:induction false} SafeForever(s: Pool, steps: seq<Step>)
    requires s.term && !Doomed(s) && IsRun(s, steps)
    ensures !Doomed(After(s, steps))
    decreases |steps|
  {
    if steps != [] {
      hide Doomed;
      SafeStays(s, steps[0]);
      SafeForever(Apply(s, steps[0]), steps[1..]);
    }
  }

  /** The same step, with handle_request asking to be called again. */
  function NotDone(step: Step): Step {
    match step
    case Work(w, _, wake) => Work(w, false, wake)
    case _ => step
  }

  lemma DoomedStays(s: Pool, step: Step)
    requires s.term && Doomed(s) && Enabled(s, step) && !Spurious(step)
    ensures Enabled(s, NotDone(step))
    ensures var t := Apply(s, NotDone(step)); t.term && Doomed(t)
  {}

  /** From a doomed state the pool can run into the hang. */
  lemma {:induction false} DoomedHangs(s: Pool) returns (steps: seq<Step>)
    requires Inv(s) && |s.workers| < Total(s) && s.term && Doomed(s)
    ensures IsRun(s, steps) && Hung(After(s, steps))
    decreases Measure(s)
  {
    if Hung(s) {
      steps := [];
    } else {
      var step := FindStep(s);
      DoomedStays(s, step);
      step := NotDone(step);
      hide Doomed, Hung, Measure, Enabled, Apply, Inv;
      StepKeeps(s, step);
      assert !Spurious(step);
      OneStep(s, step);
      var rest := DoomedHangs(Apply(s, step));
      steps := [step] + rest;
      assert steps[1..] == rest;
    }
  }

  lemma HungIsDoomed(s: Pool)
    requires Inv(s) && Hung(s)
    ensures Doomed(s)
  {}

  /** Once term is set the program can hang exactly if it is doomed; a caller can tell by looking
      at the state. */
  lemma HangExactly(s: Pool)
    requires Inv(s) && |s.workers| < Total(s) && s.term
    ensures Doomed(s) <==> exists steps: seq<Step> :: IsRun(s, steps) && Hung(After(s, steps))
  {
    hide Doomed, Hung, Inv;
    if Doomed(s) {
      var steps := DoomedHangs(s);
    } else {
      forall steps: seq<Step> | IsRun(s, steps) ensures !Hung(After(s, steps)) {
        SafeForever(s, steps);
        RunKeeps(s, steps);
        if Hung(After(s, steps)) {
          HungIsDoomed(After(s, steps));
        }
      }
    }
  }

  /** At the moment of the signal: the program can hang exactly if the acceptor waits, or is about
      to wait, for a free record that nobody is giving back just then.  Otherwise every run is of
      bounded length and one that cannot go on has joined every worker. */
  lemma SignalHangsExactly(s: Pool)
    requires Inv(s) && |s.workers| < Total(s) && Enabled(s, Terminate)
    ensures var t := Apply(s, Terminate);
            && (Doomed(s) <==> exists steps: seq<Step> :: IsRun(t, steps) && Hung(After(t, steps)))
            && (!Doomed(s) ==> forall steps: seq<Step> | IsRun(t, steps) ::
                  Stuck(After(t, steps)) <==> After(t, steps).acceptor.Joined?)
  {
    var t := Apply(s, Terminate);
    StepKeeps(s, Terminate);
    assert Doomed(t) <==> Doomed(s);
    hide Doomed, Hung, Inv, Stuck, Apply;
    HangExactly(t);
    forall steps: seq<Step> | IsRun(t, steps) && !Doomed(t)
      ensures Stuck(After(t, steps)) <==> After(t, steps).acceptor.Joined?
    {
      SignalStops(t, steps);
    }
  }

  // ---------------------------------------------------------------- the hang

  lemma {:induction false} RunOn(s: Pool, a: seq<Step>, b: seq<Step>)
    requires IsRun(s, a) && IsRun(After(s, a), b)
    ensures IsRun(s, a + b) && After(s, a + b) == After(After(s, a), b)
    decreases |a|
  {
    if a == [] {
      assert a + b == b;
    } else {
      assert (a + b)[1..] == a[1..] + b;
      RunOn(Apply(s, a[0]), a[1..], b);
    }
  }

  lemma {:induction false} RunStep(s: Pool, a: seq<Step>, step: Step) returns (b: seq<Step>)
    requires IsRun(s, a) && Enabled(After(s, a), step)
    ensures IsRun(s, b) && After(s, b) == Apply(After(s, a), step)
  {
    b := a + [step];
    var t := After(s, a);
    assert [step][1..] == [];
    assert IsRun(Apply(t, step), []) && After(Apply(t, step), []) == Apply(t, step);
    assert IsRun(t, [step]) && After(t, [step]) == Apply(t, step);
    RunOn(s, a, [step]);
  }

  predicate Accepting(s: Pool) {
    && s.acceptor == Listening && !s.term && s.workers == [SemWait] && |s.free| + |s.taken| == |s.fd|
    && forall k | 0 <= k < |s.free| :: s.free[k] < |s.fd|
  }

  /** One connection is accepted and handed over while the worker stays at the semaphore. */
  lemma AcceptOne(s: Pool, start: Pool, a: seq<Step>) returns (b: seq<Step>)
    requires IsRun(start, a) && After(start, a) == s && Accepting(s) && s.free != []
    ensures IsRun(start, b) && Accepting(After(start, b))
    ensures var t := After(start, b); t.free == s.free[1..] && t.sem == s.sem + 1
  {
    hide IsRun, After;
    var next := Main(5, None);
    b := RunStep(start, a, next);
    b := RunStep(start, b, next);
    b := RunStep(start, b, next);
    b := RunStep(start, b, next);
    b := RunStep(start, b, next);
    b := RunStep(start, b, next);
    b := RunStep(start, b, next);
  }

  lemma {:induction false} AcceptAll(start: Pool, a: seq<Step>) returns (b: seq<Step>)
    requires IsRun(start, a) && Accepting(After(start, a))
    ensures IsRun(start, b) && Accepting(After(start, b))
    ensures var t := After(start, b); t.free == [] && t.sem == After(start, a).sem + |After(start, a).free|
    decreases |After(start, a).free|
  {
    hide IsRun, After;
    b := a;
    if After(start, a).free != [] {
      b := AcceptOne(After(start, a), start, a);
      b := AcceptAll(start, b);
    }
  }

  /** With the default single worker, a signal that arrives while the acceptor waits for a free
      record can leave the program hanging: there is a run that gets there. */
  lemma HangIsReachable(fd: seq<int>) returns (steps: seq<Step>)
    requires |fd| == 10
    ensures IsRun(Start(1, fd), steps) && Hung(After(Start(1, fd), steps))
  {
    var start := Start(1, fd);
    assert start.workers == [SemWait];
    assert IsRun(start, []) && After(start, []) == start;
    steps := AcceptAll(start, []);
    hide IsRun, After;
    var next := Main(5, None);
    steps := RunStep(start, steps, next);
    steps := RunStep(start, steps, next);
    steps := RunStep(start, steps, next);
    steps := RunStep(start, steps, next);
    steps := RunStep(start, steps, Terminate);
    steps := RunStep(start, steps, Work(0, false, None));
    steps := RunStep(start, steps, Work(0, false, None));
  }

  /** Nothing ends the hang: the acceptor stays at the empty free queue, awake only in vain. */
  lemma {:induction false} HangIsForever(s: Pool, steps: seq<Step>)
    requires (s.acceptor.FreeAsleep? || s.acceptor.FreeWoken?) && s.free == [] && AllExited(s.workers)
    requires IsRun(s, steps)
    ensures var t := After(s, steps);
            && (t.acceptor.FreeAsleep? || t.acceptor.FreeWoken?)
            && t.acceptor.fd == s.acceptor.fd && t.free == [] && t.workers == s.workers
    decreases |steps|
  {
    if steps != [] {
      HangIsForever(Apply(s, steps[0]), steps[1..]);
    }
  }
}
