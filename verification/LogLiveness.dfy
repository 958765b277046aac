/** The logger under concurrency never deadlocks, every call returns, and one interleaving shows
    what overlapping copies can do to the log. */
module LogLiveness {
  import opened Types
  import opened LogProtocol

  // ---------------------------------------------------------------- no deadlock

  /** The least a readers-writer lock may grant: a reader waits while any writer does. */
  predicate CanRunStrictly(s: Log, t: nat) {
    && CanRun(s, t)
    && (s.threads[t].WantRead? || s.threads[t].WantReadAgain? ==>
          forall k | 0 <= k < |s.threads| :: !s.threads[k].WantWrite?)
  }

  /** At a lock, or outside the logger. */
  predicate Waits(x: Thread) {
    x.Idle? || x.WantMutex? || x.WantRead? || x.WantReadAgain? || x.WantWrite?
  }

  /** Unless every call has returned, some thread can go on, even when writers are preferred. */
  lemma SomeoneCanRun(s: Log) returns (t: nat)
    requires Inv(s) && !AllIdle(s)
    ensures CanRunStrictly(s, t)
  {
    assert s.writer.Some? ==> s.threads[s.writer.value].Flushing?;
    assert s.mutex.Some? ==> HasMutex(s.threads[s.mutex.value]);
    if k :| 0 <= k < |s.threads| && !Waits(s.threads[k]) {
      AlwaysInBounds(s, k);
      t := k;
    } else {
      assert forall k | k in s.readers :: HasRead(s.threads[k]);
      if k :| 0 <= k < |s.threads| && s.threads[k].WantWrite? {
        t := k;
      } else if k :| 0 <= k < |s.threads| && (s.threads[k].WantRead? || s.threads[k].WantReadAgain?) {
        t := k;
      } else {
        t :| 0 <= t < |s.threads| && s.threads[t] != Idle;
      }
    }
  }

  // ---------------------------------------------------------------- every call returns

  /** How much a thread in the logger has still to do. */
  function Effort(x: Thread, head: nat, size: nat): nat {
    match x
    case Idle => 0
    case WantMutex(rec) => 8 * |rec| + 13
    case WantRead(rec) => 8 * |rec| + 12
    case Deciding(rec) => 8 * |rec| + 11
    case Reserved(rec, _) => |rec| + 2
    case Copying(rec, _, i) => 1 + Left(rec, i)
    case Filling(rec, k, _) => 8 * Left(rec, k) + if head < size then 5 else 10
    case WantWrite(next) => FlushEffort(next) + 3
    case Flushing(next) => FlushEffort(next) + if head > 0 then 2 else 1
    case WantReadAgain(rec, k) => 8 * Left(rec, k) + 6
    case Releasing => 1
  }

  function Left(rec: string, k: nat): nat { if k <= |rec| then |rec| - k else 0 }

  function FlushEffort(next: Next): nat {
    match next
    case Resume(rec, k) => 8 * Left(rec, k) + 6
    case Last => 1
    case Leave => 0
  }

  function Efforts(xs: seq<Thread>, head: nat, size: nat): nat {
    if xs == [] then 0 else Efforts(xs[..|xs| - 1], head, size) + Effort(xs[|xs| - 1], head, size)
  }

  /** Only thread t's share changes. */
  lemma {:induction false} EffortsSet(xs: seq<Thread>, ys: seq<Thread>, t: nat, head: nat, now: nat, size: nat)
    requires t < |xs| == |ys| && ys == xs[t := ys[t]]
    requires forall k | 0 <= k < |xs| && k != t :: Effort(xs[k], now, size) == Effort(xs[k], head, size)
    ensures Efforts(ys, now, size) + Effort(xs[t], head, size) == Efforts(xs, head, size) + Effort(ys[t], now, size)
  {
    var n := |xs| - 1;
    if t == n {
      assert ys[..n] == xs[..n];
      EffortsSame(xs[..n], head, now, size);
    } else {
      assert ys[..n] == xs[..n][t := ys[t]];
      EffortsSet(xs[..n], ys[..n], t, head, now, size);
    }
  }

  lemma {:induction false} EffortsSame(xs: seq<Thread>, head: nat, now: nat, size: nat)
    requires forall k | 0 <= k < |xs| :: Effort(xs[k], now, size) == Effort(xs[k], head, size)
    ensures Efforts(xs, now, size) == Efforts(xs, head, size)
  {
    if xs != [] {
      EffortsSame(xs[..|xs| - 1], head, now, size);
    }
  }

  lemma OwnEffort(s: Log, t: nat)
    requires Inv(s) && CanRun(s, t)
    ensures OnlyMoves(s, DoRun(s, t), t)
    ensures Effort(DoRun(s, t).threads[t], DoRun(s, t).head, Size(s)) < Effort(s.threads[t], s.head, Size(s))
  {
    hide Locks;
    assert ThreadOk(s, t);
    if s.threads[t].Filling? {
      hide DoRun;
      FillEffort(s, t);
    } else {
      hide Fill, Tiled;
    }
  }

  predicate OnlyMoves(s: Log, u: Log, t: nat) {
    && t < |s.threads| == |u.threads| && Size(u) == Size(s)
    && u.threads == s.threads[t := u.threads[t]]
  }

  lemma FillEffort(s: Log, t: nat)
    requires Inv(s) && CanRun(s, t) && s.threads[t].Filling?
    ensures OnlyMoves(s, DoRun(s, t), t)
    ensures Effort(DoRun(s, t).threads[t], DoRun(s, t).head, Size(s)) < Effort(s.threads[t], s.head, Size(s))
  {
    hide Locks;
    assert ThreadOk(s, t);
  }

  /** The head matters only to a thread that fills or flushes, and no other thread does so while
      it moves. */
  lemma OtherEffort(s: Log, t: nat, k: nat)
    requires Inv(s) && CanRun(s, t) && k < |s.threads| && k != t
    ensures var u := DoRun(s, t);
            Effort(s.threads[k], u.head, Size(u)) == Effort(s.threads[k], s.head, Size(s))
  {
    hide Tiled;
    assert HasMutex(s.threads[t]) <==> s.mutex == Some(t);
    assert HasMutex(s.threads[k]) <==> s.mutex == Some(k);
    assert HasRead(s.threads[t]) <==> t in s.readers;
    assert HasRead(s.threads[k]) <==> k in s.readers;
  }

  lemma RunShrinks(s: Log, t: nat)
    requires Inv(s) && CanRun(s, t)
    ensures var u := DoRun(s, t);
            Size(u) == Size(s) && Efforts(u.threads, u.head, Size(u)) < Efforts(s.threads, s.head, Size(s))
  {
    hide Effort, DoRun, InBounds;
    var u := DoRun(s, t);
    OwnEffort(s, t);
    forall k | 0 <= k < |s.threads| && k != t
      ensures Effort(s.threads[k], u.head, Size(u)) == Effort(s.threads[k], s.head, Size(s))
    {
      OtherEffort(s, t, k);
    }
    EffortsSet(s.threads, u.threads, t, s.head, u.head, Size(s));
  }

  /** Every call returns: without new calls, any run of the threads is no longer than the efforts
      of its first state, and when no thread can go on all have left the logger. */
  lemma {:induction false} CallsReturn(s: Log, steps: seq<Step>)
    requires Inv(s) && IsRun(s, steps) && forall k | 0 <= k < |steps| :: steps[k].Run?
    ensures |steps| <= Efforts(s.threads, s.head, Size(s))
    ensures var u := After(s, steps);
            (forall t: nat :: !CanRunStrictly(u, t)) <==> AllIdle(u)
    decreases |steps|
  {
    if steps == [] {
      if !AllIdle(s) {
        var t := SomeoneCanRun(s);
      }
    } else {
      RunShrinks(s, steps[0].t);
      StepKeeps(s, steps[0]);
      CallsReturn(Apply(s, steps[0]), steps[1..]);
    }
  }

  // ---------------------------------------------------------------- what overlapping copies do

  lemma {:induction false} RunStep(s: Log, a: seq<Step>, step: Step) returns (b: seq<Step>)
    requires IsRun(s, a) && Enabled(After(s, a), step)
    ensures b == a + [step] && IsRun(s, b) && After(s, b) == Apply(After(s, a), step)
    decreases |a|
  {
    b := a + [step];
    if a == [] {
      assert b[1..] == [];
    } else {
      var c := RunStep(Apply(s, a[0]), a[1..], step);
      assert b[1..] == c;
    }
  }

  /** Thread t takes n steps. */
  lemma {:induction false} RunFor(s: Log, a: seq<Step>, t: nat, n: nat) returns (b: seq<Step>)
    requires IsRun(s, a) && CanRunFor(After(s, a), t, n)
    ensures IsRun(s, b) && After(s, b) == RanFor(After(s, a), t, n)
    decreases n
  {
    b := a;
    if n > 0 {
      b := RunStep(s, a, Run(t));
      b := RunFor(s, b, t, n - 1);
    }
  }

  predicate CanRunFor(s: Log, t: nat, n: nat)
    decreases n
  {
    n == 0 || (CanRun(s, t) && CanRunFor(DoRun(s, t), t, n - 1))
  }

  function RanFor(s: Log, t: nat, n: nat): Log
    requires CanRunFor(s, t, n)
    decreases n
  {
    if n == 0 then s else RanFor(DoRun(s, t), t, n - 1)
  }

  /** The state in which both records have room and neither is copied. */
  function BothReserved(): Log {
    Log("........", 3, "", None, {0, 1}, None, [Copying("ab", 0, 0), Copying("c", 2, 0)],
        [0, 0, 1], [Entry(0, "ab"), Entry(1, "c")])
  }

  function Called(): Log {
    Log("........", 0, "", None, {}, None, [WantMutex("ab"), WantMutex("c")], [], [])
  }

  lemma CallBoth() returns (steps: seq<Step>)
    ensures IsRun(Start(2, "........"), steps) && After(Start(2, "........"), steps) == Called()
  {
    var start := Start(2, "........");
    assert start.threads == [Idle, Idle];
    assert IsRun(start, []) && After(start, []) == start;
    hide IsRun, After;
    steps := RunStep(start, [], Call(0, "ab"));
    steps := RunStep(start, steps, Call(1, "c"));
    assert After(start, steps).threads == [WantMutex("ab"), WantMutex("c")];
  }

  function FirstReserved(): Log {
    Log("........", 2, "", None, {0}, None, [Copying("ab", 0, 0), WantMutex("c")], [0, 0], [Entry(0, "ab")])
  }

  lemma Reservations()
    ensures CanRunFor(Called(), 0, 4) && RanFor(Called(), 0, 4) == FirstReserved()
    ensures CanRunFor(FirstReserved(), 1, 4) && RanFor(FirstReserved(), 1, 4) == BothReserved()
  {
    hide RanFor, CanRunFor;
    Reservation(Called(), 0, "ab");
    Reservation(FirstReserved(), 1, "c");
    assert seq(2, _ => 0) == [0, 0] && seq(1, _ => 1) == [1];
  }

  lemma ReserveBoth() returns (steps: seq<Step>)
    ensures IsRun(Start(2, "........"), steps) && After(Start(2, "........"), steps) == BothReserved()
  {
    hide IsRun, After, RanFor, CanRunFor, Start, Called, FirstReserved, BothReserved;
    var start := Start(2, "........");
    steps := CallBoth();
    Reservations();
    steps := RunFor(start, steps, 0, 4);
    steps := RunFor(start, steps, 1, 4);
  }

  /** The copies that follow: the first thread's, then the second's. */
  lemma CopyBoth()
    ensures var s := BothReserved();
            && CanRunFor(s, 0, 3) && CanRunFor(RanFor(s, 0, 3), 1, 2)
            && RanFor(RanFor(s, 0, 3), 1, 2)
               == s.(threads := [Idle, Idle], readers := {}, buf := ".ac.....")
  {
    var s := BothReserved();
    var u1 := DoRun(s, 0);
    assert u1.buf == ".a......";
    var u2 := DoRun(u1, 0);
    assert u2.buf == ".ab.....";
    var u3 := DoRun(u2, 0);
    assert CanRunFor(u3, 0, 0) && CanRunFor(u2, 0, 1) && CanRunFor(u1, 0, 2) && CanRunFor(s, 0, 3);
    assert RanFor(u2, 0, 1) == u3 && RanFor(u1, 0, 2) == u3 && RanFor(s, 0, 3) == u3;
    var u4 := DoRun(u3, 1);
    assert u4.buf == ".ac.....";
    var u5 := DoRun(u4, 1);
    assert CanRunFor(u5, 1, 0) && CanRunFor(u4, 1, 1) && CanRunFor(u3, 1, 2);
    assert RanFor(u4, 1, 1) == u5 && RanFor(u3, 1, 2) == u5;
    assert u5.threads == [Idle, Idle];
    assert u5.readers == {};
  }

  /** Two short records, the second given room before the first is copied: the second thread's
      reservation shifts the first thread's copy, and the log ends up holding neither "ab" nor
      the two records one after the other. */
  lemma OverlapLosesBytes() returns (steps: seq<Step>)
    ensures IsRun(Start(2, "........"), steps)
    ensures var t := After(Start(2, "........"), steps);
            && AllIdle(t) && t.head <= Size(t)
            && t.records == [Entry(0, "ab"), Entry(1, "c")] && Contents(t) == ".ac"
  {
    var start := Start(2, "........");
    steps := ReserveBoth();
    hide IsRun, After, RanFor, CanRunFor, Start;
    CopyBoth();
    steps := RunFor(start, steps, 0, 3);
    steps := RunFor(start, steps, 1, 2);
  }

  lemma Reservation(s: Log, t: nat, rec: string)
    requires t < |s.threads| && s.threads[t] == WantMutex(rec)
    requires s.mutex == None && s.writer == None && s.head + |rec| < Size(s)
    ensures CanRunFor(s, t, 4)
    ensures RanFor(s, t, 4) == s.(threads := s.threads[t := Copying(rec, s.head, 0)],
              head := s.head + |rec|, readers := s.readers + {t},
              owner := s.owner + seq(|rec|, _ => t), records := s.records + [Entry(t, rec)])
  {
    var u1 := DoRun(s, t);
    var u2 := DoRun(u1, t);
    var u3 := DoRun(u2, t);
    var u4 := DoRun(u3, t);
    assert CanRunFor(u4, t, 0) && CanRunFor(u3, t, 1) && CanRunFor(u2, t, 2) && CanRunFor(u1, t, 3);
    assert RanFor(u3, t, 1) == u4 && RanFor(u2, t, 2) == u4 && RanFor(u1, t, 3) == u4;
    assert u4.threads == s.threads[t := Copying(rec, s.head, 0)];
  }
}
