/** What the pool does with one request record: in every run the calls of handle_request on it are
    a sequence of conversations, each for one connection and none overlapping the next. */
module Connections {
  import opened Types
  import opened Pool

  /** The record is prepared for a new connection, or handle_request is called on it. */
  datatype Event = Opened(fd: int) | Called(fd: int, done: bool)

  function EventOf(s: Pool, step: Step, r: nat): Option<Event>
    requires Enabled(s, step)
  {
    match step
    case Main(_, _) =>
      if s.acceptor.HasFree? && s.acceptor.r == r && !s.term then Some(Opened(s.acceptor.fd)) else None
    case Work(w, done, _) => if s.workers[w] == Running(r) then Some(Called(s.fd[r], done)) else None
    case _ => None
  }

  /** Everything that happens to record r in a run. */
  function Trace(s: Pool, steps: seq<Step>, r: nat): seq<Event>
    requires IsRun(s, steps)
    decreases |steps|
  {
    if steps == [] then []
    else
      (match EventOf(s, steps[0], r) case Some(e) => [e] case None => [])
      + Trace(Apply(s, steps[0]), steps[1..], r)
  }

  /** From a record with this connection, if any: it is called with the connection it was prepared
      for, again and again until a call says that it is done, and is then prepared anew before the
      next call.  This is what serving one connection after the other on one record does. */
  predicate Conversations(conn: Option<int>, events: seq<Event>)
    decreases |events|
  {
    events == [] ||
    match events[0]
    case Opened(fd) => conn == None && Conversations(Some(fd), events[1..])
    case Called(fd, done) => conn == Some(fd) && Conversations(if done then None else conn, events[1..])
  }

  function Serving(r: nat): Worker -> nat {
    (w: Worker) => if NeedsFd(w) && w.r == r then 1 else 0
  }

  /** In how many places record r is on its way to a worker or with one, its request unfinished. */
  function InService(s: Pool, r: nat): nat {
    Count(s.taken, r) + (if (s.acceptor.Announcing? || s.acceptor.Handing?) && s.acceptor.r == r then 1 else 0)
    + Sum(s.workers, Serving(r))
  }

  /** The connection of an unfinished request. */
  function Conn(s: Pool, r: nat): Option<int> {
    if InService(s, r) > 0 && r < |s.fd| then Some(s.fd[r]) else None
  }

  lemma {:induction false} ServingHolds(ws: seq<Worker>, r: nat)
    ensures Sum(ws, Serving(r)) <= Sum(ws, Holds(r))
  {
    if ws != [] {
      ServingHolds(ws[..|ws| - 1], r);
    }
  }

  lemma SignalledServing(ws: seq<Worker>, wake: Option<nat>, r: nat)
    requires GoodWake(ws, wake)
    ensures Sum(Signalled(ws, wake), Serving(r)) == Sum(ws, Serving(r))
  {
    if wake.Some? {
      SumSet(ws, wake.value, Woken, Serving(r));
    }
  }

  lemma ServiceMain(s: Pool, fd: int, wake: Option<nat>, r: nat)
    requires CanMain(s, fd, wake)
    ensures InService(DoMain(s, fd, wake), r) ==
            InService(s, r) + if s.acceptor.HasFree? && s.acceptor.r == r && !s.term then 1 else 0
  {
    hide Sum, Count;
    if s.acceptor.Handing? {
      SignalledServing(s.workers, wake, r);
      CountPush(s.taken, s.acceptor.r, r);
    } else {
      hide GoodWake, Signalled;
    }
  }

  lemma ServiceWork(s: Pool, w: nat, done: bool, wake: Option<nat>, r: nat)
    requires CanWork(s, w, wake)
    requires s.workers[w].HasJob? ==> s.fd[s.workers[w].r] != -1
    ensures InService(DoWork(s, w, done, wake), r) + (if s.workers[w] == Running(r) && done then 1 else 0)
            == InService(s, r)
  {
    hide Sum, Count;
    var t := DoWork(s, w, done, wake);
    var ws := s.workers;
    if UsesTaken(s, w) {
      SignalledServing(ws, wake, r);
      ws := Signalled(ws, wake);
    }
    SumSet(ws, w, t.workers[w], Serving(r));
    match s.workers[w] {
      case Requeueing(x) => CountPush(s.taken, x, r);
      case Popping => if s.taken != [] { CountPop(s.taken, r); }
      case Woken => if s.taken != [] { CountPop(s.taken, r); }
      case _ =>
    }
  }

  /** A record in the acceptor's hand that is not yet announced is in nobody's service. */
  lemma NotYetInService(s: Pool, r: nat)
    requires Conserved(s) && s.acceptor.HasFree? && s.acceptor.r == r
    ensures InService(s, r) == 0
  {
    ServingHolds(s.workers, r);
    assert Copies(s, r) <= 1;
  }

  /** A record that a worker runs is in its service alone. */
  lemma RunningInService(s: Pool, w: nat, r: nat)
    requires Conserved(s) && w < |s.workers| && s.workers[w] == Running(r)
    ensures InService(s, r) == 1
  {
    SumAtLeast(s.workers, w, Serving(r));
    ServingHolds(s.workers, r);
    assert Copies(s, r) <= 1;
  }

  lemma MainTrace(s: Pool, fd: int, wake: Option<nat>, r: nat)
    requires Inv(s) && CanMain(s, fd, wake)
    ensures var t := DoMain(s, fd, wake);
            match EventOf(s, Main(fd, wake), r)
            case Some(e) => Conn(s, r) == None && Conn(t, r) == Some(e.fd)
            case None => Conn(t, r) == Conn(s, r)
  {
    hide Counted, Connected;
    ServiceMain(s, fd, wake, r);
    if s.acceptor.HasFree? {
      NotYetInService(s, s.acceptor.r);
    }
    hide InService, GoodWake, Signalled;
  }

  lemma WorkTrace(s: Pool, w: nat, done: bool, wake: Option<nat>, r: nat)
    requires Inv(s) && CanWork(s, w, wake)
    ensures var t := DoWork(s, w, done, wake);
            match EventOf(s, Work(w, done, wake), r)
            case Some(e) => Conn(s, r) == Some(e.fd) && Conn(t, r) == (if done then None else Conn(s, r))
            case None => Conn(t, r) == Conn(s, r)
  {
    JobHasFd(s, w);
    FdsAfterWork(s, w, done, wake);
    ServiceWork(s, w, done, wake, r);
    if s.workers[w] == Running(r) {
      RunningInService(s, w, r);
    }
    hide Counted, Connected, Conserved, InService, DoWork;
  }

  /** A worker changes a descriptor only when its request is done. */
  lemma FdsAfterWork(s: Pool, w: nat, done: bool, wake: Option<nat>)
    requires CanWork(s, w, wake)
    ensures DoWork(s, w, done, wake).fd ==
            if s.workers[w].Running? && done then s.fd[s.workers[w].r := -1] else s.fd
  {
    hide GoodWake, Signalled;
  }

  lemma JobHasFd(s: Pool, w: nat)
    requires Connected(s) && w < |s.workers|
    ensures s.workers[w].HasJob? ==> s.workers[w].r < |s.fd| && s.fd[s.workers[w].r] != -1
  {
    assert s.workers[w].HasJob? ==> NeedsFd(s.workers[w]);
  }

  lemma StepTrace(s: Pool, step: Step, r: nat)
    requires Inv(s) && Enabled(s, step)
    ensures var t := Apply(s, step);
            match EventOf(s, step, r)
            case None => Conn(t, r) == Conn(s, r)
            case Some(Opened(fd)) => Conn(s, r) == None && Conn(t, r) == Some(fd)
            case Some(Called(fd, done)) => Conn(s, r) == Some(fd) && Conn(t, r) == if done then None else Some(fd)
  {
    match step {
      case Main(fd, wake) =>
        hide Inv, Conn;
        MainTrace(s, fd, wake, r);
      case Work(w, done, wake) =>
        hide Inv, Conn;
        WorkTrace(s, w, done, wake, r);
      case Wakeup(w) => SumSet(s.workers, w, Woken, Serving(r));
      case _ =>
    }
  }

  lemma {:induction false} RunTrace(s: Pool, steps: seq<Step>, r: nat)
    requires Inv(s) && IsRun(s, steps)
    ensures Conversations(Conn(s, r), Trace(s, steps, r))
    decreases |steps|
  {
    if steps != [] {
      hide Inv, Conn, EventOf;
      var t := Apply(s, steps[0]);
      StepKeeps(s, steps[0]);
      StepTrace(s, steps[0], r);
      RunTrace(t, steps[1..], r);
      var rest := Trace(t, steps[1..], r);
      match EventOf(s, steps[0], r) {
        case Some(e) => assert ([e] + rest)[1..] == rest;
        case None => assert [] + rest == rest;
      }
    }
  }

  /** In every run of any number of workers over any number of records: what happens to a record is
      a sequence of conversations. */
  lemma EveryRecordConverses(n: nat, fd: seq<int>, steps: seq<Step>, r: nat)
    requires IsRun(Start(n, fd), steps)
    ensures Conversations(None, Trace(Start(n, fd), steps, r))
  {
    StartKeeps(n, fd);
    Idle(n, Serving(r));
    RunTrace(Start(n, fd), steps, r);
  }

  // ---------------------------------------------------------------- which connections are served

  /** The descriptor that accept brings in this step. */
  function AcceptedBy(s: Pool, step: Step): seq<int> {
    if step.Main? && s.acceptor.Polling? && step.fd >= 0 then [step.fd] else []
  }

  /** The descriptor for which a record, whichever it is, is prepared in this step. */
  function OpenedBy(s: Pool, step: Step): seq<int>
    requires Enabled(s, step)
  {
    if !s.acceptor.HasFree? then []
    else
      match EventOf(s, step, s.acceptor.r)
      case Some(Opened(fd)) => [fd]
      case _ => []
  }

  lemma OpenedForOneRecord(s: Pool, step: Step, r: nat)
    requires Enabled(s, step) && EventOf(s, step, r).Some? && EventOf(s, step, r).value.Opened?
    ensures OpenedBy(s, step) == [EventOf(s, step, r).value.fd]
  {
  }

  function Accepts(s: Pool, steps: seq<Step>): seq<int>
    requires IsRun(s, steps)
    decreases |steps|
  {
    if steps == [] then [] else AcceptedBy(s, steps[0]) + Accepts(Apply(s, steps[0]), steps[1..])
  }

  function Opens(s: Pool, steps: seq<Step>): seq<int>
    requires IsRun(s, steps)
    decreases |steps|
  {
    if steps == [] then [] else OpenedBy(s, steps[0]) + Opens(Apply(s, steps[0]), steps[1..])
  }

  /** A descriptor that was accepted and has no record yet. */
  function Carried(a: Acceptor): seq<int> {
    match a
    case Accepted(fd) => [fd]
    case FreePopping(fd) => [fd]
    case FreeAsleep(fd) => [fd]
    case FreeWoken(fd) => [fd]
    case HasFree(_, fd) => [fd]
    case _ => []
  }

  lemma DispatchStep(s: Pool, step: Step)
    requires Enabled(s, step)
    ensures var u := Apply(s, step);
            if LeftLoop(u.acceptor) then AcceptedBy(s, step) == OpenedBy(s, step) == []
            else
              !LeftLoop(s.acceptor) &&
              Carried(s.acceptor) + AcceptedBy(s, step) == OpenedBy(s, step) + Carried(u.acceptor)
  {
    hide GoodWake, Signalled, CanWork, DoWork;
    if step.Work? {
      WorkersDispatchNothing(s, step.w, step.done, step.wake);
    }
  }

  lemma WorkersDispatchNothing(s: Pool, w: nat, done: bool, wake: Option<nat>)
    requires CanWork(s, w, wake)
    ensures var a := DoWork(s, w, done, wake).acceptor;
            Carried(a) == Carried(s.acceptor) && (LeftLoop(a) <==> LeftLoop(s.acceptor))
  {
    hide GoodWake, Signalled;
  }

  lemma {:induction false} DispatchRun(s: Pool, steps: seq<Step>) returns (left: seq<int>)
    requires IsRun(s, steps)
    ensures Carried(s.acceptor) + Accepts(s, steps) == Opens(s, steps) + left && |left| <= 1
    ensures !LeftLoop(After(s, steps).acceptor) ==> left == Carried(After(s, steps).acceptor)
    decreases |steps|
  {
    if steps == [] {
      left := Carried(s.acceptor);
    } else {
      DispatchStep(s, steps[0]);
      var u := Apply(s, steps[0]);
      hide Enabled, Apply, Carried, AcceptedBy, OpenedBy;
      if LeftLoop(u.acceptor) {
        NothingMore(u, steps[1..]);
        left := Carried(s.acceptor);
        CarriesOne(s.acceptor);
      } else {
        left := DispatchRun(u, steps[1..]);
        Glue(Carried(s.acceptor), AcceptedBy(s, steps[0]), OpenedBy(s, steps[0]), Carried(u.acceptor),
             Accepts(u, steps[1..]), Opens(u, steps[1..]), left);
      }
    }
  }

  lemma CarriesOne(a: Acceptor)
    ensures |Carried(a)| <= 1
  {
  }

  lemma {:induction false} NothingMore(s: Pool, steps: seq<Step>)
    requires IsRun(s, steps) && LeftLoop(s.acceptor)
    ensures Accepts(s, steps) == Opens(s, steps) == [] && LeftLoop(After(s, steps).acceptor)
    decreases |steps|
  {
    if steps != [] {
      NothingMore(Apply(s, steps[0]), steps[1..]);
    }
  }

  /** Every connection is dispatched: in every run, the descriptors for which records are prepared
      are, in order, the ones that accept brought, but for at most the last, which the acceptor
      still carries or gave up when it left its loop. */
  lemma EveryConnectionDispatched(n: nat, fd: seq<int>, steps: seq<Step>)
    requires IsRun(Start(n, fd), steps)
    ensures var s := Start(n, fd); var a := After(s, steps).acceptor;
            && Opens(s, steps) <= Accepts(s, steps) && |Accepts(s, steps)| <= |Opens(s, steps)| + 1
            && (a.Listening? || a.Polling? || a.Announcing? || a.Handing? ==> Opens(s, steps) == Accepts(s, steps))
  {
    var left := DispatchRun(Start(n, fd), steps);
    assert Carried(Start(n, fd).acceptor) + Accepts(Start(n, fd), steps) == Accepts(Start(n, fd), steps);
  }

  // ---------------------------------------------------------------- in which order

  /** The records that enter and leave the jobs in this step, seen from the threads. */
  function JobsIn(s: Pool, step: Step): seq<nat>
    requires Enabled(s, step)
  {
    match step
    case Main(_, _) => if s.acceptor.Handing? then [s.acceptor.r] else []
    case Work(w, _, _) => if s.workers[w].Requeueing? then [s.workers[w].r] else []
    case _ => []
  }

  function JobsOut(s: Pool, step: Step): seq<nat>
    requires Enabled(s, step)
  {
    match step
    case Work(w, _, _) =>
      var t := Apply(s, step);
      if (s.workers[w].Popping? || s.workers[w].Woken?) && w < |t.workers| && t.workers[w].HasJob? then [t.workers[w].r]
      else []
    case _ => []
  }

  /** The same for the free queue. */
  function FreeIn(s: Pool, step: Step): seq<nat>
    requires Enabled(s, step)
  {
    if step.Work? && s.workers[step.w].Finishing? then [s.workers[step.w].r] else []
  }

  function FreeOut(s: Pool, step: Step): seq<nat>
    requires Enabled(s, step)
  {
    var t := Apply(s, step);
    if !s.acceptor.HasFree? && t.acceptor.HasFree? then [t.acceptor.r] else []
  }

  lemma JobsStep(s: Pool, step: Step)
    requires Enabled(s, step)
    ensures s.taken + JobsIn(s, step) == JobsOut(s, step) + Apply(s, step).taken
  {
    hide GoodWake, Signalled;
    if s.taken != [] {
      assert s.taken == [s.taken[0]] + s.taken[1..];
    }
  }

  lemma FreeStep(s: Pool, step: Step)
    requires Enabled(s, step)
    ensures s.free + FreeIn(s, step) == FreeOut(s, step) + Apply(s, step).free
  {
    hide GoodWake, Signalled;
    if s.free != [] {
      assert s.free == [s.free[0]] + s.free[1..];
    }
  }

  /** All entries and exits of a run. */
  function All(s: Pool, steps: seq<Step>, of: (Pool, Step) --> seq<nat>): seq<nat>
    requires IsRun(s, steps) && forall p, x | Enabled(p, x) :: of.requires(p, x)
    decreases |steps|
  {
    if steps == [] then [] else of(s, steps[0]) + All(Apply(s, steps[0]), steps[1..], of)
  }

  /** Both queues are first in, first out, whoever pushes and pops in between. */
  lemma {:induction false} QueuesAreFifo(s: Pool, steps: seq<Step>)
    requires IsRun(s, steps)
    ensures s.taken + All(s, steps, JobsIn) == All(s, steps, JobsOut) + After(s, steps).taken
    ensures s.free + All(s, steps, FreeIn) == All(s, steps, FreeOut) + After(s, steps).free
    decreases |steps|
  {
    if steps != [] {
      var u := Apply(s, steps[0]);
      JobsStep(s, steps[0]);
      FreeStep(s, steps[0]);
      hide Apply, Enabled, JobsIn, JobsOut, FreeIn, FreeOut;
      QueuesAreFifo(u, steps[1..]);
      Glue(s.taken, JobsIn(s, steps[0]), JobsOut(s, steps[0]), u.taken, All(u, steps[1..], JobsIn),
           All(u, steps[1..], JobsOut), After(s, steps).taken);
      Glue(s.free, FreeIn(s, steps[0]), FreeOut(s, steps[0]), u.free, All(u, steps[1..], FreeIn),
           All(u, steps[1..], FreeOut), After(s, steps).free);
    }
  }

  lemma Glue<T>(q: seq<T>, i: seq<T>, o: seq<T>, r: seq<T>, ii: seq<T>, oo: seq<T>, e: seq<T>)
    requires q + i == o + r && r + ii == oo + e
    ensures q + (i + ii) == (o + oo) + e
  {
    assert q + (i + ii) == (q + i) + ii == o + (r + ii);
  }
}
