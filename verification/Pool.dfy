/** The worker pool of httpserver.c: an acceptor and N workers that pass request records
    between a free queue and a queue of taken jobs, with a semaphore that is posted before the
    push it announces.  Every step below is atomic in the C program: a semaphore operation, a
    test of a variable, or the part of a queue operation done under the queue's mutex. */
module Pool {
  import opened Types

  /** A worker is a program counter; some of them hold the request record `r`. */
  datatype Worker =
    | SemWait          // at sem_wait
    | TermCheck        // past sem_wait, about to test term
    | Popping          // about to enter queue_pop on the jobs
    | Asleep           // waiting on the condition variable of the jobs
    | Woken            // signalled, about to look at the jobs again
    | HasJob(r: nat)   // about to test the descriptor of the popped record
    | Running(r: nat)  // in handle_request
    | Finishing(r: nat)  // connection closed, about to push to the free queue
    | Posting(r: nat)    // to be resumed later, about to post the semaphore
    | Requeueing(r: nat) // posted, about to push back to the jobs
    | Exited

  datatype Acceptor =
    | Listening                        // at the loop test
    | Polling                          // in poll and accept
    | Accepted(fd: nat)                // about to test term before popping the free queue
    | FreePopping(fd: nat)             // about to enter queue_pop on the free queue
    | FreeAsleep(fd: nat)
    | FreeWoken(fd: nat)
    | HasFree(r: nat, fd: nat)         // about to test term behind the pop
    | Announcing(r: nat)               // record prepared, about to post the semaphore
    | Handing(r: nat)                  // posted, about to push to the jobs
    | Stopping(posts: nat, held: Option<nat>)  // loop left; `posts` shutdown posts made
    | Joining(held: Option<nat>)
    | Joined(held: Option<nat>)

  datatype Pool = Pool(
    free: seq<nat>, taken: seq<nat>, sem: nat, term: bool,
    acceptor: Acceptor, workers: seq<Worker>, fd: seq<int>)

  /** One step of the system: the shutdown signal arrives, the acceptor or a worker takes its
      next step, or a waiting thread wakes up by itself.  `fd` is what accept returns, `done`
      what handle_request returns, `wake` the thread a signal wakes. */
  datatype Step =
    | Terminate
    | Main(fd: int, wake: Option<nat>)
    | Work(w: nat, done: bool, wake: Option<nat>)
    | MainWakeup
    | Wakeup(w: nat)

  // ---------------------------------------------------------------- sums over the workers

  function Sum(ws: seq<Worker>, weight: Worker -> nat): nat {
    if ws == [] then 0 else Sum(ws[..|ws| - 1], weight) + weight(ws[|ws| - 1])
  }

  lemma {:induction false} SumSet(ws: seq<Worker>, k: nat, x: Worker, weight: Worker -> nat)
    requires k < |ws|
    ensures Sum(ws[k := x], weight) + weight(ws[k]) == Sum(ws, weight) + weight(x)
  {
    var n := |ws| - 1;
    if k == n {
      assert ws[k := x][..n] == ws[..n];
    } else {
      assert ws[k := x][..n] == ws[..n][k := x];
      SumSet(ws[..n], k, x, weight);
    }
  }

  lemma {:induction false} SumAtLeast(ws: seq<Worker>, k: nat, weight: Worker -> nat)
    requires k < |ws|
    ensures Sum(ws, weight) >= weight(ws[k])
  {
    if k < |ws| - 1 {
      SumAtLeast(ws[..|ws| - 1], k, weight);
    }
  }

  lemma {:induction false} SumAtLeastTwo(ws: seq<Worker>, j: nat, k: nat, weight: Worker -> nat)
    requires j < k < |ws|
    ensures Sum(ws, weight) >= weight(ws[j]) + weight(ws[k])
  {
    if k < |ws| - 1 {
      SumAtLeastTwo(ws[..|ws| - 1], j, k, weight);
    } else {
      SumAtLeast(ws[..k], j, weight);
    }
  }

  lemma {:induction false} SumPositive(ws: seq<Worker>, weight: Worker -> nat) returns (k: nat)
    requires Sum(ws, weight) > 0
    ensures k < |ws| && weight(ws[k]) > 0
  {
    var n := |ws| - 1;
    if weight(ws[n]) > 0 {
      k := n;
    } else {
      k := SumPositive(ws[..n], weight);
    }
  }

  lemma {:induction false} SumBound(ws: seq<Worker>, weight: Worker -> nat, max: nat)
    requires forall w :: weight(w) <= max
    ensures Sum(ws, weight) <= max * |ws|
  {
    if ws != [] {
      SumBound(ws[..|ws| - 1], weight, max);
    }
  }

  // how many workers are ...
  function Checking(w: Worker): nat { if w.TermCheck? then 1 else 0 }
  function Popper(w: Worker): nat { if w.Popping? || w.Asleep? || w.Woken? then 1 else 0 }
  function Sleeper(w: Worker): nat { if w.Asleep? then 1 else 0 }
  function Waker(w: Worker): nat { if w.Woken? then 1 else 0 }
  function Pusher(w: Worker): nat { if w.Requeueing? then 1 else 0 }
  function Gone(w: Worker): nat { if w.Exited? then 1 else 0 }

  /** All the counts at once, when one worker moves. */
  lemma CountsSet(ws: seq<Worker>, k: nat, x: Worker)
    requires k < |ws|
    ensures var v := ws[k := x];
            && Sum(v, Checking) + Checking(ws[k]) == Sum(ws, Checking) + Checking(x)
            && Sum(v, Popper) + Popper(ws[k]) == Sum(ws, Popper) + Popper(x)
            && Sum(v, Sleeper) + Sleeper(ws[k]) == Sum(ws, Sleeper) + Sleeper(x)
            && Sum(v, Waker) + Waker(ws[k]) == Sum(ws, Waker) + Waker(x)
            && Sum(v, Pusher) + Pusher(ws[k]) == Sum(ws, Pusher) + Pusher(x)
            && Sum(v, Gone) + Gone(ws[k]) == Sum(ws, Gone) + Gone(x)
  {
    SumSet(ws, k, x, Checking);
    SumSet(ws, k, x, Popper);
    SumSet(ws, k, x, Sleeper);
    SumSet(ws, k, x, Waker);
    SumSet(ws, k, x, Pusher);
    SumSet(ws, k, x, Gone);
  }

  // ---------------------------------------------------------------- who holds which record

  predicate Busy(w: Worker) {
    w.HasJob? || w.Running? || w.Finishing? || w.Posting? || w.Requeueing?
  }

  function Hands(w: Worker): nat { if Busy(w) then 1 else 0 }

  function Holds(r: nat): Worker -> nat {
    (w: Worker) => if Busy(w) && w.r == r then 1 else 0
  }

  /** The record in the acceptor's hand. */
  function Held(a: Acceptor): Option<nat> {
    match a
    case HasFree(r, _) => Some(r)
    case Announcing(r) => Some(r)
    case Handing(r) => Some(r)
    case Stopping(_, held) => held
    case Joining(held) => held
    case Joined(held) => held
    case _ => None
  }

  function Count(q: seq<nat>, r: nat): (n: nat)
    ensures n > 0 <==> r in q
  {
    multiset(q)[r]
  }

  lemma CountPush(q: seq<nat>, x: nat, r: nat)
    ensures Count(q + [x], r) == Count(q, r) + if x == r then 1 else 0
  {}

  lemma CountPop(q: seq<nat>, r: nat)
    requires q != []
    ensures Count(q, r) == Count(q[1..], r) + if q[0] == r then 1 else 0
  {
    assert q == [q[0]] + q[1..];
  }

  /** How many places hold record r. */
  function Copies(s: Pool, r: nat): nat {
    Count(s.free, r) + Count(s.taken, r) + (if Held(s.acceptor) == Some(r) then 1 else 0)
    + Sum(s.workers, Holds(r))
  }

  /** How many records there are, over all the places. */
  function Population(s: Pool): nat {
    |s.free| + |s.taken| + (if Held(s.acceptor).Some? then 1 else 0) + Sum(s.workers, Hands)
  }

  function AllRecords(n: nat): seq<nat> {
    seq(n, i => i)
  }

  lemma {:induction false} AllRecordsOnce(n: nat, r: nat)
    ensures Count(AllRecords(n), r) == if r < n then 1 else 0
  {
    if n > 0 {
      AllRecordsOnce(n - 1, r);
      CountPush(AllRecords(n - 1), n - 1, r);
      assert AllRecords(n) == AllRecords(n - 1) + [n - 1];
    }
  }

  // ---------------------------------------------------------------- the steps

  /** pthread_cond_signal on the jobs: it wakes a waiting worker if there is one. */
  predicate GoodWake(ws: seq<Worker>, wake: Option<nat>) {
    if wake.Some? then wake.value < |ws| && ws[wake.value] == Asleep
    else forall k | 0 <= k < |ws| :: ws[k] != Asleep
  }

  function Signalled(ws: seq<Worker>, wake: Option<nat>): (r: seq<Worker>)
    requires GoodWake(ws, wake)
    ensures |r| == |ws|
  {
    if wake.Some? then ws[wake.value := Woken] else ws
  }

  function Total(s: Pool): nat { |s.fd| }

  /** Whether the acceptor can take its next step, and with which arguments. */
  predicate CanMain(s: Pool, fd: int, wake: Option<nat>) {
    match s.acceptor
    case FreeAsleep(_) => false
    case Announcing(r) => true
    case Handing(r) => |s.taken| < Total(s) && GoodWake(s.workers, wake)
    case Joining(_) => forall k | 0 <= k < |s.workers| :: s.workers[k] == Exited
    case Joined(_) => false
    case HasFree(r, _) => r < |s.fd|
    case _ => true
  }

  function DoMain(s: Pool, fd: int, wake: Option<nat>): Pool
    requires CanMain(s, fd, wake)
  {
    match s.acceptor
    case Listening => s.(acceptor := if s.term then Stopping(0, None) else Polling)
    case Polling => s.(acceptor := if fd < 0 then Listening else Accepted(fd))
    case Accepted(f) => s.(acceptor := if s.term then Stopping(0, None) else FreePopping(f))
    case FreePopping(f) => PopFree(s, f)
    case FreeAsleep(f) => s
    case FreeWoken(f) => PopFree(s, f)
    case HasFree(r, f) =>
      if s.term then s.(acceptor := Stopping(0, Some(r)))
      else s.(acceptor := Announcing(r), fd := s.fd[r := f])
    case Announcing(r) => s.(acceptor := Handing(r), sem := s.sem + 1)
    case Handing(r) =>
      s.(acceptor := Listening, taken := s.taken + [r], workers := Signalled(s.workers, wake))
    case Stopping(k, held) =>
      if k < |s.workers| then s.(acceptor := Stopping(k + 1, held), sem := s.sem + 1)
      else s.(acceptor := Joining(held))
    case Joining(held) => s.(acceptor := Joined(held))
    case Joined(_) => s
  }

  /** queue_pop on the free queue, under its mutex: only the acceptor ever waits there. */
  function PopFree(s: Pool, f: nat): Pool {
    if s.free == [] then s.(acceptor := FreeAsleep(f))
    else s.(acceptor := HasFree(s.free[0], f), free := s.free[1..])
  }

  function SetWorker(s: Pool, w: nat, x: Worker): Pool
    requires w < |s.workers|
  {
    s.(workers := s.workers[w := x])
  }

  /** Whether worker w can take its next step. */
  predicate CanWork(s: Pool, w: nat, wake: Option<nat>) {
    && w < |s.workers|
    && match s.workers[w]
       case SemWait => s.sem > 0
       case Asleep => false
       case Exited => false
       case HasJob(r) => r < |s.fd|
       case Running(r) => r < |s.fd|
       case Finishing(_) => |s.free| < Total(s)
       case Popping => s.taken != [] ==> GoodWake(s.workers, wake)
       case Woken => s.taken != [] ==> GoodWake(s.workers, wake)
       case Requeueing(_) => |s.taken| < Total(s) && GoodWake(s.workers, wake)
       case _ => true
  }

  function DoWork(s: Pool, w: nat, done: bool, wake: Option<nat>): Pool
    requires CanWork(s, w, wake)
  {
    match s.workers[w]
    case SemWait => SetWorker(s, w, TermCheck).(sem := s.sem - 1)
    case TermCheck => SetWorker(s, w, if s.term then Exited else Popping)
    case Popping => PopTaken(s, w, wake)
    case Asleep => s
    case Woken => PopTaken(s, w, wake)
    case HasJob(r) => SetWorker(s, w, if s.fd[r] == -1 then SemWait else Running(r))
    case Running(r) =>
      if done then SetWorker(s, w, Finishing(r)).(fd := s.fd[r := -1]) else SetWorker(s, w, Posting(r))
    case Finishing(r) =>
      SetWorker(s, w, SemWait).(free := s.free + [r],
                                acceptor := match s.acceptor case FreeAsleep(f) => FreeWoken(f) case a => a)
    case Posting(r) => SetWorker(s, w, Requeueing(r)).(sem := s.sem + 1)
    case Requeueing(r) =>
      s.(workers := Signalled(s.workers, wake)[w := SemWait], taken := s.taken + [r])
    case Exited => s
  }

  /** queue_pop on the jobs, under their mutex. */
  function PopTaken(s: Pool, w: nat, wake: Option<nat>): Pool
    requires w < |s.workers| && (s.taken != [] ==> GoodWake(s.workers, wake))
  {
    if s.taken == [] then SetWorker(s, w, Asleep)
    else s.(workers := Signalled(s.workers, wake)[w := HasJob(s.taken[0])], taken := s.taken[1..])
  }

  predicate Enabled(s: Pool, step: Step) {
    match step
    case Terminate => !s.term  // the handler resets itself when it is first called
    case Main(fd, wake) => CanMain(s, fd, wake)
    case Work(w, _, wake) => CanWork(s, w, wake)
    case MainWakeup => s.acceptor.FreeAsleep?
    case Wakeup(w) => w < |s.workers| && s.workers[w] == Asleep
  }

  function Apply(s: Pool, step: Step): Pool
    requires Enabled(s, step)
  {
    match step
    case Terminate => s.(term := true)
    case Main(fd, wake) => DoMain(s, fd, wake)
    case Work(w, done, wake) => DoWork(s, w, done, wake)
    case MainWakeup => s.(acceptor := FreeWoken(s.acceptor.fd))
    case Wakeup(w) => SetWorker(s, w, Woken)
  }

  /** The state in which main starts its loop: n workers, ten records each, all of them free. */
  function Start(n: nat, fd: seq<int>): Pool {
    Pool(AllRecords(|fd|), [], 0, false, Listening, seq(n, _ => SemWait), fd)
  }

  predicate IsRun(s: Pool, steps: seq<Step>)
    decreases |steps|
  {
    steps == [] || (Enabled(s, steps[0]) && IsRun(Apply(s, steps[0]), steps[1..]))
  }

  function After(s: Pool, steps: seq<Step>): Pool
    requires IsRun(s, steps)
    decreases |steps|
  {
    if steps == [] then s else After(Apply(s, steps[0]), steps[1..])
  }

  // ---------------------------------------------------------------- the invariant

  function Announced(a: Acceptor): nat { if a.Handing? then 1 else 0 }

  /** Shutdown posts made so far. */
  function Extra(a: Acceptor, n: nat): nat {
    match a
    case Stopping(k, _) => k
    case Joining(_) => n
    case Joined(_) => n
    case _ => 0
  }

  predicate LeftLoop(a: Acceptor) { a.Stopping? || a.Joining? || a.Joined? }

  /** Posts whose push is still to come. */
  function Unpushed(s: Pool): nat {
    Sum(s.workers, Pusher) + Announced(s.acceptor)
  }

  /** Every record is in exactly one place. */
  ghost predicate Conserved(s: Pool) {
    && (forall r: nat :: Copies(s, r) == if r < Total(s) then 1 else 0)
    && Population(s) == Total(s)
  }

  /** The semaphore and the workers it has let through account for every announced job, every
      pending push and every shutdown post. */
  predicate Accounted(s: Pool) {
    s.sem + Sum(s.workers, Checking) + Sum(s.workers, Popper) + Sum(s.workers, Gone)
      == |s.taken| + Unpushed(s) + Extra(s.acceptor, |s.workers|)
  }

  /** Workers past the term check never outnumber the jobs that are there or on their way. */
  predicate Covered(s: Pool) {
    Sum(s.workers, Popper) <= |s.taken| + Unpushed(s)
  }

  /** No lost wakeup: while some worker sleeps, no more jobs are queued than workers were woken. */
  predicate Awake(s: Pool) {
    && (Sum(s.workers, Sleeper) > 0 ==> |s.taken| <= Sum(s.workers, Waker))
    && (s.acceptor.FreeAsleep? ==> s.free == [])
  }

  predicate NeedsFd(w: Worker) {
    w.HasJob? || w.Running? || w.Posting? || w.Requeueing?
  }

  /** Records on their way to a worker, or with one, have a connection. */
  predicate Connected(s: Pool) {
    && (forall k | 0 <= k < |s.taken| :: s.taken[k] < |s.fd| && s.fd[s.taken[k]] != -1)
    && (forall k | 0 <= k < |s.workers| && NeedsFd(s.workers[k]) ::
          s.workers[k].r < |s.fd| && s.fd[s.workers[k].r] != -1)
    && (s.acceptor.Announcing? || s.acceptor.Handing? ==>
          s.acceptor.r < |s.fd| && s.fd[s.acceptor.r] != -1)
  }

  predicate Orderly(s: Pool) {
    && (!s.term ==> Sum(s.workers, Gone) == 0 && !LeftLoop(s.acceptor))
    && (s.acceptor.Stopping? ==> s.acceptor.posts <= |s.workers|)
    && (s.acceptor.Joined? ==> Sum(s.workers, Gone) == |s.workers|)
  }

  /** The counting part of the invariant. */
  predicate Counted(s: Pool) {
    Accounted(s) && Covered(s) && Awake(s) && Orderly(s)
  }

  ghost predicate Inv(s: Pool) {
    Conserved(s) && Counted(s) && Connected(s)
  }

  // ---------------------------------------------------------------- every step keeps it

  lemma SignalledCounts(ws: seq<Worker>, wake: Option<nat>)
    requires GoodWake(ws, wake)
    ensures var v := Signalled(ws, wake); var up := if wake.Some? then 1 else 0;
            && Sum(v, Checking) == Sum(ws, Checking) && Sum(v, Popper) == Sum(ws, Popper)
            && Sum(v, Pusher) == Sum(ws, Pusher) && Sum(v, Gone) == Sum(ws, Gone)
            && Sum(v, Sleeper) + up == Sum(ws, Sleeper) && Sum(v, Waker) == Sum(ws, Waker) + up
            && Sum(v, Hands) == Sum(ws, Hands)
            && (wake.None? ==> Sum(ws, Sleeper) == 0)
  {
    match wake {
      case Some(k) =>
        CountsSet(ws, k, Woken);
        SumSet(ws, k, Woken, Hands);
      case None =>
        if Sum(ws, Sleeper) > 0 {
          var k := SumPositive(ws, Sleeper);
        }
    }
  }

  lemma SignalledHolds(ws: seq<Worker>, wake: Option<nat>, r: nat)
    requires GoodWake(ws, wake)
    ensures Sum(Signalled(ws, wake), Holds(r)) == Sum(ws, Holds(r))
  {
    if wake.Some? {
      SumSet(ws, wake.value, Woken, Holds(r));
    }
  }

  /** A record in a worker's hands is nowhere else. */
  lemma HeldOnce(s: Pool, w: nat)
    requires Conserved(s) && w < |s.workers| && Busy(s.workers[w])
    ensures var r := s.workers[w].r;
            && r < Total(s) && r !in s.free && r !in s.taken && Held(s.acceptor) != Some(r)
            && forall k | 0 <= k < |s.workers| && k != w && Busy(s.workers[k]) :: s.workers[k].r != r
  {
    var r := s.workers[w].r;
    SumAtLeast(s.workers, w, Holds(r));
    assert Copies(s, r) <= 1;
    forall k | 0 <= k < |s.workers| && k != w && Busy(s.workers[k]) ensures s.workers[k].r != r {
      SumAtLeastTwo(s.workers, if w < k then w else k, if w < k then k else w, Holds(r));
    }
  }

  lemma {:induction false} GoneBound(ws: seq<Worker>)
    ensures Sum(ws, Gone) <= |ws|
    ensures Sum(ws, Gone) == |ws| <==> forall k | 0 <= k < |ws| :: ws[k] == Exited
  {
    if ws != [] {
      GoneBound(ws[..|ws| - 1]);
      assert forall k | 0 <= k < |ws| - 1 :: ws[..|ws| - 1][k] == ws[k];
    }
  }

  lemma CountedMain(s: Pool, fd: int, wake: Option<nat>)
    requires Counted(s) && CanMain(s, fd, wake)
    ensures Counted(DoMain(s, fd, wake))
  {
    hide Sum, Signalled;
    match s.acceptor {
      case Handing(_) => SignalledCounts(s.workers, wake);
      case Joining(_) => GoneBound(s.workers);
      case _ =>
    }
  }

  /** The worker steps outside the queues. */
  lemma CountedWork(s: Pool, w: nat, done: bool, wake: Option<nat>)
    requires Counted(s) && CanWork(s, w, wake)
    ensures Counted(DoWork(s, w, done, wake))
  {
    hide Sum, Counted;
    match s.workers[w] {
      case Requeueing(_) => CountedPush(s, w, wake);
      case Popping => CountedPop(s, w, wake);
      case Woken => CountedPop(s, w, wake);
      case SemWait => CountedGate(s, w, wake);
      case TermCheck => CountedGate(s, w, wake);
      case _ => CountedJob(s, w, done, wake);
    }
  }

  lemma CountedGate(s: Pool, w: nat, wake: Option<nat>)
    requires Counted(s) && CanWork(s, w, wake) && (s.workers[w].SemWait? || s.workers[w].TermCheck?)
    ensures Counted(DoWork(s, w, false, wake))
  {
    hide Sum;
    GoneBound(s.workers);
    if s.workers[w].SemWait? {
      CountsSet(s.workers, w, TermCheck);
    } else {
      CountsSet(s.workers, w, if s.term then Exited else Popping);
    }
  }

  lemma CountedJob(s: Pool, w: nat, done: bool, wake: Option<nat>)
    requires Counted(s) && CanWork(s, w, wake) && Busy(s.workers[w]) && !s.workers[w].Requeueing?
    ensures Counted(DoWork(s, w, done, wake))
  {
    hide Sum;
    var t := DoWork(s, w, done, wake);
    CountsSet(s.workers, w, t.workers[w]);
    assert Sum(t.workers, Gone) == Sum(s.workers, Gone);
  }

  lemma CountedPush(s: Pool, w: nat, wake: Option<nat>)
    requires Counted(s) && CanWork(s, w, wake) && s.workers[w].Requeueing?
    ensures Counted(DoWork(s, w, false, wake))
  {
    hide Sum;
    SignalledCounts(s.workers, wake);
    CountsSet(Signalled(s.workers, wake), w, SemWait);
  }

  lemma CountedPop(s: Pool, w: nat, wake: Option<nat>)
    requires Counted(s) && CanWork(s, w, wake) && (s.workers[w].Popping? || s.workers[w].Woken?)
    ensures Counted(PopTaken(s, w, wake))
  {
    hide Sum;
    SumAtLeast(s.workers, w, Popper);
    if s.taken == [] {
      CountsSet(s.workers, w, Asleep);
    } else {
      SignalledCounts(s.workers, wake);
      CountsSet(Signalled(s.workers, wake), w, HasJob(s.taken[0]));
    }
  }

  lemma ConservedMain(s: Pool, fd: int, wake: Option<nat>)
    requires Conserved(s) && CanMain(s, fd, wake)
    ensures Conserved(DoMain(s, fd, wake))
  {
    hide Sum, Count, GoodWake;
    var t := DoMain(s, fd, wake);
    forall r: nat ensures Copies(t, r) == Copies(s, r) {
      if s.acceptor.Handing? {
        SignalledHolds(s.workers, wake, r);
        CountPush(s.taken, s.acceptor.r, r);
      } else if (s.acceptor.FreePopping? || s.acceptor.FreeWoken?) && s.free != [] {
        CountPop(s.free, r);
      }
    }
    if s.acceptor.Handing? {
      SignalledCounts(s.workers, wake);
    }
  }

  lemma ConservedWork(s: Pool, w: nat, done: bool, wake: Option<nat>)
    requires Conserved(s) && CanWork(s, w, wake)
    requires s.workers[w].HasJob? ==> s.fd[s.workers[w].r] != -1
    ensures Conserved(DoWork(s, w, done, wake))
  {
    hide Sum, Count, GoodWake, Signalled;
    var t := DoWork(s, w, done, wake);
    forall r: nat ensures Copies(t, r) == Copies(s, r) {
      CopiesWork(s, w, done, wake, r);
    }
    PopulationWork(s, w, done, wake);
  }

  predicate UsesTaken(s: Pool, w: nat)
    requires w < |s.workers|
  {
    s.workers[w].Requeueing? || ((s.workers[w].Popping? || s.workers[w].Woken?) && s.taken != [])
  }

  lemma CopiesWork(s: Pool, w: nat, done: bool, wake: Option<nat>, r: nat)
    requires CanWork(s, w, wake)
    requires s.workers[w].HasJob? ==> s.fd[s.workers[w].r] != -1
    ensures Copies(DoWork(s, w, done, wake), r) == Copies(s, r)
  {
    hide Sum, Count;
    var t := DoWork(s, w, done, wake);
    var ws := s.workers;
    if UsesTaken(s, w) {
      SignalledHolds(ws, wake, r);
      ws := Signalled(ws, wake);
    }
    SumSet(ws, w, t.workers[w], Holds(r));
    match s.workers[w] {
      case Requeueing(x) => CountPush(s.taken, x, r);
      case Finishing(x) => CountPush(s.free, x, r);
      case Popping => if s.taken != [] { CountPop(s.taken, r); }
      case Woken => if s.taken != [] { CountPop(s.taken, r); }
      case _ =>
    }
  }

  lemma PopulationWork(s: Pool, w: nat, done: bool, wake: Option<nat>)
    requires CanWork(s, w, wake)
    requires s.workers[w].HasJob? ==> s.fd[s.workers[w].r] != -1
    ensures Population(DoWork(s, w, done, wake)) == Population(s)
  {
    hide Sum;
    var t := DoWork(s, w, done, wake);
    if UsesTaken(s, w) {
      PopulationQueue(s, w, wake);
    } else {
      hide GoodWake, Signalled;
      SumSet(s.workers, w, t.workers[w], Hands);
    }
  }

  lemma PopulationQueue(s: Pool, w: nat, wake: Option<nat>)
    requires CanWork(s, w, wake) && UsesTaken(s, w)
    ensures Population(DoWork(s, w, false, wake)) == Population(s)
  {
    hide Sum;
    SignalledCounts(s.workers, wake);
    SumSet(Signalled(s.workers, wake), w, DoWork(s, w, false, wake).workers[w], Hands);
  }

  lemma ConnectedMain(s: Pool, fd: int, wake: Option<nat>)
    requires Connected(s) && CanMain(s, fd, wake)
    ensures Connected(DoMain(s, fd, wake))
  {}

  lemma ConnectedWork(s: Pool, w: nat, done: bool, wake: Option<nat>)
    requires Connected(s) && Conserved(s) && CanWork(s, w, wake)
    ensures Connected(DoWork(s, w, done, wake))
  {
    hide Conserved, Connected;
    match s.workers[w] {
      case Running(_) => ConnectedServe(s, w, done, wake);
      case Popping => ConnectedPop(s, w, wake);
      case Woken => ConnectedPop(s, w, wake);
      case Requeueing(_) => ConnectedPush(s, w, wake);
      case _ => ConnectedRest(s, w, wake);
    }
  }

  lemma ConnectedServe(s: Pool, w: nat, done: bool, wake: Option<nat>)
    requires Connected(s) && Conserved(s) && CanWork(s, w, wake) && s.workers[w].Running?
    ensures Connected(DoWork(s, w, done, wake))
  {
    hide Conserved;
    HeldOnce(s, w);
  }

  lemma ConnectedPop(s: Pool, w: nat, wake: Option<nat>)
    requires Connected(s) && CanWork(s, w, wake) && (s.workers[w].Popping? || s.workers[w].Woken?)
    ensures Connected(PopTaken(s, w, wake))
  {}

  lemma ConnectedPush(s: Pool, w: nat, wake: Option<nat>)
    requires Connected(s) && CanWork(s, w, wake) && s.workers[w].Requeueing?
    ensures Connected(DoWork(s, w, false, wake))
  {}

  lemma ConnectedRest(s: Pool, w: nat, wake: Option<nat>)
    requires Connected(s) && CanWork(s, w, wake)
    requires var x := s.workers[w];
             !x.Running? && !x.Popping? && !x.Woken? && !x.Requeueing?
    ensures Connected(DoWork(s, w, false, wake))
  {
    hide GoodWake, Signalled, PopTaken;
  }

  lemma OtherSteps(s: Pool, step: Step)
    requires Inv(s) && Enabled(s, step) && !step.Main? && !step.Work?
    ensures Inv(Apply(s, step))
  {
    hide Sum, Count;
    if step.Wakeup? {
      CountsSet(s.workers, step.w, Woken);
      SumSet(s.workers, step.w, Woken, Hands);
      forall r: nat ensures Copies(Apply(s, step), r) == Copies(s, r) {
        SumSet(s.workers, step.w, Woken, Holds(r));
      }
    } else {
      assert forall r: nat :: Copies(Apply(s, step), r) == Copies(s, r);
    }
  }

  lemma WorkKeeps(s: Pool, w: nat, done: bool, wake: Option<nat>)
    requires Inv(s) && CanWork(s, w, wake)
    ensures Inv(DoWork(s, w, done, wake))
  {
    assert s.workers[w].HasJob? ==> NeedsFd(s.workers[w]);
    hide Counted, Conserved, Connected, DoWork, GoodWake;
    CountedWork(s, w, done, wake);
    ConservedWork(s, w, done, wake);
    ConnectedWork(s, w, done, wake);
  }

  /** Every step of every thread keeps the invariant. */
  lemma StepKeeps(s: Pool, step: Step)
    requires Inv(s) && Enabled(s, step)
    ensures Inv(Apply(s, step))
    ensures |Apply(s, step).workers| == |s.workers| && Total(Apply(s, step)) == Total(s)
  {
    hide Counted, Conserved, Connected, GoodWake;
    match step {
      case Main(fd, wake) =>
        CountedMain(s, fd, wake);
        ConservedMain(s, fd, wake);
        ConnectedMain(s, fd, wake);
      case Work(w, done, wake) => WorkKeeps(s, w, done, wake);
      case _ => OtherSteps(s, step);
    }
  }

  lemma {:induction false} Idle(n: nat, weight: Worker -> nat)
    requires weight(SemWait) == 0
    ensures Sum(seq(n, _ => SemWait), weight) == 0
  {
    if n > 0 {
      assert seq(n, _ => SemWait)[..n - 1] == seq(n - 1, _ => SemWait);
      Idle(n - 1, weight);
    }
  }

  lemma StartKeeps(n: nat, fd: seq<int>)
    ensures Inv(Start(n, fd))
  {
    var s := Start(n, fd);
    Idle(n, Checking);
    Idle(n, Popper);
    Idle(n, Sleeper);
    Idle(n, Pusher);
    Idle(n, Gone);
    Idle(n, Hands);
    forall r: nat ensures Copies(s, r) == if r < |fd| then 1 else 0 {
      Idle(n, Holds(r));
      AllRecordsOnce(|fd|, r);
    }
  }

  /** The invariant holds after every run of any number of workers over any number of records. */
  lemma {:induction false} RunKeeps(s: Pool, steps: seq<Step>)
    requires Inv(s) && IsRun(s, steps)
    ensures Inv(After(s, steps))
    ensures |After(s, steps).workers| == |s.workers| && Total(After(s, steps)) == Total(s)
    decreases |steps|
  {
    hide Inv;
    if steps != [] {
      StepKeeps(s, steps[0]);
      RunKeeps(Apply(s, steps[0]), steps[1..]);
    }
  }

  // ---------------------------------------------------------------- what the invariant gives

  /** After every run, each record is in exactly one place: the free queue, the jobs, the
      acceptor's hand or one worker's. */
  lemma EachRecordInOnePlace(n: nat, fd: seq<int>, steps: seq<Step>, r: nat)
    requires IsRun(Start(n, fd), steps)
    ensures Copies(After(Start(n, fd), steps), r) == if r < |fd| then 1 else 0
  {
    StartKeeps(n, fd);
    RunKeeps(Start(n, fd), steps);
  }

  /** After every run that has not been told to stop, the semaphore and the workers between
      sem_wait and their pop account for the queued jobs and the posts whose push is pending. */
  lemma SemaphoreAccounts(n: nat, fd: seq<int>, steps: seq<Step>)
    requires IsRun(Start(n, fd), steps) && !After(Start(n, fd), steps).term
    ensures var t := After(Start(n, fd), steps);
            t.sem + Sum(t.workers, Checking) + Sum(t.workers, Popper) == |t.taken| + Unpushed(t)
  {
    StartKeeps(n, fd);
    RunKeeps(Start(n, fd), steps);
    hide Sum;
  }

  /** After every run, a worker sleeps on the jobs only if there are no more of them than workers
      that were woken and have not yet looked. */
  lemma NoLostWakeup(n: nat, fd: seq<int>, steps: seq<Step>, w: nat)
    requires IsRun(Start(n, fd), steps)
    requires var t := After(Start(n, fd), steps); w < |t.workers| && t.workers[w] == Asleep
    ensures var t := After(Start(n, fd), steps); |t.taken| <= Sum(t.workers, Waker)
  {
    StartKeeps(n, fd);
    RunKeeps(Start(n, fd), steps);
    SumAtLeast(After(Start(n, fd), steps).workers, w, Sleeper);
  }

  /** Offset x lies in the part of the request buffers that belongs to record r. */
  predicate InSlice(r: nat, x: nat) {
    MAX_HEADER * r <= x < MAX_HEADER * (r + 1)
  }

  /** After every run, a record in the hands of a worker is in no queue, in the hands of no other
      thread, has a connection unless it is on its way back, and no other worker's record shares
      a byte of its buffer. */
  lemma Exclusive(n: nat, fd: seq<int>, steps: seq<Step>, w: nat)
    requires IsRun(Start(n, fd), steps)
    requires var t := After(Start(n, fd), steps); w < |t.workers| && Busy(t.workers[w])
    ensures var t := After(Start(n, fd), steps);
            var r := t.workers[w].r;
            && r < |t.fd| == |fd| && r !in t.free && r !in t.taken && Held(t.acceptor) != Some(r)
            && (!t.workers[w].Finishing? ==> t.fd[r] != -1)
            && forall k | 0 <= k < |t.workers| && k != w && Busy(t.workers[k]) ::
                 t.workers[k].r != r && forall x: nat | InSlice(r, x) :: !InSlice(t.workers[k].r, x)
  {
    StartKeeps(n, fd);
    RunKeeps(Start(n, fd), steps);
    ExclusiveIn(After(Start(n, fd), steps), w);
  }

  lemma ExclusiveIn(t: Pool, w: nat)
    requires Inv(t) && w < |t.workers| && Busy(t.workers[w])
    ensures var r := t.workers[w].r;
            && r < |t.fd| && r !in t.free && r !in t.taken && Held(t.acceptor) != Some(r)
            && (!t.workers[w].Finishing? ==> t.fd[r] != -1)
            && forall k | 0 <= k < |t.workers| && k != w && Busy(t.workers[k]) ::
                 t.workers[k].r != r && forall x: nat | InSlice(r, x) :: !InSlice(t.workers[k].r, x)
  {
    HeldOnce(t, w);
    assert !t.workers[w].Finishing? ==> NeedsFd(t.workers[w]);
    forall k, x: nat | 0 <= k < |t.workers| && k != w && Busy(t.workers[k]) && InSlice(t.workers[w].r, x)
      ensures !InSlice(t.workers[k].r, x)
    {
      SlicesApart(t.workers[w].r, t.workers[k].r, x);
    }
  }

  lemma SlicesApart(r: nat, q: nat, x: nat)
    requires r != q && InSlice(r, x)
    ensures !InSlice(q, x)
  {
    if r < q {
      assert MAX_HEADER * (r + 1) <= MAX_HEADER * q;
    } else {
      assert MAX_HEADER * (q + 1) <= MAX_HEADER * r;
    }
  }

  /** A worker with a record finds room in both queues: queue_push never waits.  Its record is
      one of the pool's, and no job is ever dropped for want of a descriptor. */
  lemma WorkersNeverWaitToPush(s: Pool, w: nat)
    requires Inv(s) && w < |s.workers| && Busy(s.workers[w])
    ensures |s.taken| < Total(s) && |s.free| < Total(s) && s.workers[w].r < Total(s)
    ensures s.workers[w].HasJob? ==> s.fd[s.workers[w].r] != -1
  {
    HeldOnce(s, w);
    SumAtLeast(s.workers, w, Hands);
    assert s.workers[w].HasJob? ==> NeedsFd(s.workers[w]);
  }

  lemma AcceptorNeverWaitsToPush(s: Pool)
    requires Inv(s) && Held(s.acceptor).Some?
    ensures |s.taken| < Total(s) && |s.free| < Total(s) && Held(s.acceptor).value < Total(s)
  {
    var r := Held(s.acceptor).value;
    assert Copies(s, r) >= 1;
  }

  lemma SomeWake(ws: seq<Worker>) returns (wake: Option<nat>)
    ensures GoodWake(ws, wake)
  {
    if k :| 0 <= k < |ws| && ws[k] == Asleep {
      wake := Some(k);
    } else {
      wake := None;
    }
  }

  /** A thread that is about to push to the jobs, and can. */
  predicate PushEnabled(s: Pool, step: Step) {
    && Enabled(s, step)
    && ((step.Main? && s.acceptor.Handing?) || (step.Work? && s.workers[step.w].Requeueing?))
  }

  /** While a worker is past the term check and the jobs are empty, some thread is about to push
      to them, and its push can go ahead. */
  lemma EmptyQueueHasPusher(s: Pool, w: nat) returns (step: Step)
    requires Inv(s) && w < |s.workers| && Popper(s.workers[w]) == 1 && s.taken == []
    ensures PushEnabled(s, step)
    ensures Apply(s, step).taken != []
  {
    SumAtLeast(s.workers, w, Popper);
    var wake := SomeWake(s.workers);
    if s.acceptor.Handing? {
      AcceptorNeverWaitsToPush(s);
      step := Main(0, wake);
    } else {
      var k := SumPositive(s.workers, Pusher);
      WorkersNeverWaitToPush(s, k);
      step := Work(k, false, wake);
    }
  }
}
