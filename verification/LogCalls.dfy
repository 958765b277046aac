/** The log and the calls that asked for it: after any run, what the logger holds is decided by the
    records that the threads passed to log_buf. */
module LogCalls {
  import opened LogProtocol

  /** The calls of log_buf in a run, in the order in which they were made. */
  function Asked(steps: seq<Step>): seq<Entry> {
    if steps == [] then []
    else AskedBy(steps[0]) + Asked(steps[1..])
  }

  function AskedBy(step: Step): seq<Entry> {
    match step
    case Call(t, rec) => [Entry(t, rec)]
    case _ => []
  }

  /** The records of one thread, in order. */
  function Of(entries: seq<Entry>, t: nat): seq<string> {
    if entries == [] then []
    else (if entries[0].t == t then [entries[0].rec] else []) + Of(entries[1..], t)
  }

  lemma {:induction false} OfConcat(a: seq<Entry>, b: seq<Entry>, t: nat)
    ensures Of(a + b, t) == Of(a, t) + Of(b, t)
  {
    if a == [] {
      assert a + b == b;
    } else {
      assert (a + b)[1..] == a[1..] + b;
      OfConcat(a[1..], b, t);
    }
  }

  lemma OfOne(e: Entry, t: nat)
    ensures Of([e], t) == if e.t == t then [e.rec] else []
  {
    assert [e][1..] == [];
  }

  /** The record of a call that has not yet made room for it. */
  function Waiting(x: Thread): seq<string> {
    match x
    case WantMutex(rec) => [rec]
    case WantRead(rec) => [rec]
    case Deciding(rec) => [rec]
    case _ => []
  }

  /** What a step adds to the history. */
  function Added(s: Log, step: Step): seq<Entry>
    requires step.t < |s.threads|
  {
    if step.Run? && s.threads[step.t].Deciding? then [Entry(step.t, s.threads[step.t].rec)] else []
  }

  lemma StepAdds(s: Log, step: Step)
    requires Enabled(s, step)
    ensures var u := Apply(s, step);
            && |u.threads| == |s.threads| && u.records == s.records + Added(s, step)
            && forall k | 0 <= k < |s.threads| && k != step.t :: u.threads[k] == s.threads[k]
  {
    hide InBounds, Place;
  }

  lemma StepWaits(s: Log, step: Step)
    requires Enabled(s, step)
    ensures var u := Apply(s, step);
            && step.t < |u.threads|
            && Waiting(u.threads[step.t])
               == (if step.Call? then [step.rec] else if Added(s, step) == [] then Waiting(s.threads[step.t]) else [])
            && (step.Call? ==> Waiting(s.threads[step.t]) == [])
            && (Added(s, step) != [] ==> Waiting(s.threads[step.t]) == [s.threads[step.t].rec])
  {
    hide InBounds, Place;
  }

  /** A step makes room for exactly the record that its thread was called with. */
  lemma StepLogs(s: Log, step: Step, k: nat)
    requires Enabled(s, step) && k < |s.threads|
    ensures var u := Apply(s, step);
            && |u.threads| == |s.threads|
            && Of(u.records, k) + Waiting(u.threads[k])
               == Of(s.records, k) + Waiting(s.threads[k]) + Of(AskedBy(step), k)
  {
    StepAdds(s, step);
    StepWaits(s, step);
    hide Apply, Enabled, Waiting, Of;
    var before, u := Of(s.records, k), Apply(s, step);
    OfConcat(s.records, Added(s, step), k);
    NothingOf(k);
    if Added(s, step) != [] {
      OfOne(Entry(step.t, s.threads[step.t].rec), k);
    } else if step.Call? {
      OfOne(Entry(step.t, step.rec), k);
    }
    assert before + [] == before;
    assert k == step.t ==> before + Of(AskedBy(step), k) + [] == before + [] + Of(AskedBy(step), k);
  }

  lemma NothingOf(k: nat)
    ensures Of([], k) == []
  {
  }

  lemma {:induction false} RunLogs(s: Log, steps: seq<Step>, k: nat)
    requires IsRun(s, steps) && k < |s.threads|
    ensures var u := After(s, steps);
            && |u.threads| == |s.threads|
            && Of(u.records, k) + Waiting(u.threads[k])
               == Of(s.records, k) + Waiting(s.threads[k]) + Of(Asked(steps), k)
    decreases |steps|
  {
    if steps != [] {
      var t := Apply(s, steps[0]);
      StepLogs(s, steps[0], k);
      RunLogs(t, steps[1..], k);
      OfConcat(AskedBy(steps[0]), Asked(steps[1..]), k);
    }
  }

  predicate KnownThreads(entries: seq<Entry>, n: nat) {
    forall k | 0 <= k < |entries| :: entries[k].t < n
  }

  lemma {:induction false} RunThreads(s: Log, steps: seq<Step>)
    requires IsRun(s, steps) && KnownThreads(s.records, |s.threads|)
    ensures KnownThreads(After(s, steps).records, |s.threads|) && KnownThreads(Asked(steps), |s.threads|)
    ensures |After(s, steps).threads| == |s.threads|
    decreases |steps|
  {
    if steps != [] {
      StepAdds(s, steps[0]);
      hide Apply, InBounds, Place;
      RunThreads(Apply(s, steps[0]), steps[1..]);
    }
  }

  lemma {:induction false} CountOf(entries: seq<Entry>, e: Entry)
    ensures multiset(entries)[e] == multiset(Of(entries, e.t))[e.rec]
  {
    if entries != [] {
      CountOf(entries[1..], e);
      assert entries == [entries[0]] + entries[1..];
    }
  }

  /** Two lists that agree thread by thread hold the same entries. */
  lemma SameEntries(a: seq<Entry>, b: seq<Entry>, n: nat)
    requires KnownThreads(a, n) && KnownThreads(b, n) && forall k: nat | k < n :: Of(a, k) == Of(b, k)
    ensures multiset(a) == multiset(b)
  {
    forall e: Entry ensures multiset(a)[e] == multiset(b)[e] {
      CountOf(a, e);
      CountOf(b, e);
      if e.t >= n {
        assert e !in a && e !in b;
      }
    }
  }

  /** The log is the calls: after any run of any number of threads, when thread k is in no call,
      the calls it made are in the log, each once, in the order in which it made them. */
  lemma EachThreadLogged(n: nat, buf: seq<char>, steps: seq<Step>, k: nat)
    requires IsRun(Start(n, buf), steps) && k < n
    requires var t := After(Start(n, buf), steps); k < |t.threads| && t.threads[k] == Idle
    ensures Of(After(Start(n, buf), steps).records, k) == Of(Asked(steps), k)
  {
    var s := Start(n, buf);
    assert k < |s.threads| && s.threads[k] == Idle && s.records == [];
    hide Start, IsRun, After;
    RunLogs(s, steps, k);
    var all := Of(Asked(steps), k);
    assert Of(s.records, k) + Waiting(s.threads[k]) + all == all;
  }

  /** Whatever is asked for after a run comes behind what the run has logged. */
  lemma {:induction false} LogOnlyGrows(s: Log, steps: seq<Step>)
    requires IsRun(s, steps)
    ensures s.records <= After(s, steps).records
    decreases |steps|
  {
    if steps != [] {
      StepAdds(s, steps[0]);
      LogOnlyGrows(Apply(s, steps[0]), steps[1..]);
    }
  }

  /** Log records are appended whole, whatever their length: after any run of any number of threads
      in which no call makes room during another's fast copy, once all calls have returned, the file
      and the buffer together are some order of the calls of the run, each once, that keeps the
      order of every thread. */
  lemma LogIsAppend(n: nat, buf: seq<char>, steps: seq<Step>)
    requires |buf| > 0 && IsRun(Start(n, buf), steps) && NoneOverlaps(Start(n, buf), steps)
    requires AllIdle(After(Start(n, buf), steps))
    ensures var t := After(Start(n, buf), steps);
            && t.head <= Size(t) && Contents(t) == Flat(t.records)
            && multiset(t.records) == multiset(Asked(steps))
            && forall k: nat | k < n :: Of(t.records, k) == Of(Asked(steps), k)
  {
    var t := After(Start(n, buf), steps);
    StartKeeps(n, buf);
    NoOverlapIsUndisturbed(Start(n, buf), steps);
    FaithfulRun(Start(n, buf), steps);
    IdleMeansAll(t);
    RunThreads(Start(n, buf), steps);
    forall k: nat | k < n ensures Of(t.records, k) == Of(Asked(steps), k) {
      EachThreadLogged(n, buf, steps, k);
    }
    SameEntries(t.records, Asked(steps), n);
  }

  // ---------------------------------------------------------------- what has reached the file

  /** A call whose record did not fit leaves nothing in the buffer when it is about to return. */
  lemma SlowCallLeavesNothing(s: Log, t: nat)
    requires Inv(s) && t < |s.threads| && s.threads[t].Releasing?
    ensures s.head == 0
  {
    assert ThreadOk(s, t);
  }

  /** Bytes that have been given room. */
  function Room(s: Log): nat { |s.file| + s.head }

  /** A thread that waits for the write lock to flush and return, or has done so. */
  predicate Flushes(s: Log, t: nat, mark: nat) {
    && t < |s.threads| && mark <= Room(s) && s.head <= Size(s)
    && match s.threads[t]
       case Idle => mark <= |s.file|
       case WantWrite(next) => next == Leave
       case Flushing(next) => next == Leave
       case _ => false
  }

  lemma FlushStep(s: Log, step: Step, t: nat, mark: nat)
    requires Inv(s) && Flushes(s, t, mark) && Enabled(s, step) && (step.t == t ==> step.Run?)
    ensures Flushes(Apply(s, step), t, mark)
  {
    var u := Apply(s, step);
    RoomGrows(s, step);
    if step.t == t {
      hide Inv, Fill, Decide, Place;
    } else {
      StepAdds(s, step);
      hide Inv, Apply, Enabled;
    }
  }

  /** No step takes room back, or bytes out of the file. */
  lemma RoomGrows(s: Log, step: Step)
    requires Inv(s) && Enabled(s, step)
    ensures var u := Apply(s, step);
            Room(s) <= Room(u) && |s.file| <= |u.file| && u.head <= Size(u)
  {
    StepKeeps(s, step);
    hide Locks, Place;
  }

  lemma {:induction false} FlushRun(s: Log, steps: seq<Step>, t: nat, mark: nat)
    requires Inv(s) && Flushes(s, t, mark) && IsRun(s, steps)
    requires forall k | 0 <= k < |steps| && steps[k].t == t :: steps[k].Run?
    ensures Flushes(After(s, steps), t, mark)
    decreases |steps|
  {
    if steps != [] {
      hide Inv, Flushes;
      StepKeeps(s, steps[0]);
      FlushStep(s, steps[0], t, mark);
      FlushRun(Apply(s, steps[0]), steps[1..], t, mark);
    }
  }

  /** When a call of flush_logger has returned, every byte that had been given room before the call
      is in the file, whatever the other threads did meanwhile. */
  lemma FlushReachesFile(s: Log, steps: seq<Step>, t: nat)
    requires Inv(s) && Enabled(s, Flush(t)) && IsRun(Apply(s, Flush(t)), steps)
    requires forall k | 0 <= k < |steps| && steps[k].t == t :: steps[k].Run?
    requires var u := After(Apply(s, Flush(t)), steps); t < |u.threads| && u.threads[t] == Idle
    ensures |After(Apply(s, Flush(t)), steps).file| >= Room(s)
  {
    StepKeeps(s, Flush(t));
    FlushRun(Apply(s, Flush(t)), steps, t, Room(s));
  }
}
