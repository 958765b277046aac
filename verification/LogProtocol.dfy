/** The logger of log.c under concurrency: any number of threads in log_buf and flush_logger,
    each step being one operation on a lock, one test, one byte copied or one write to the file.
    The copy loop of the fast path finds its place from the head of the buffer, which it reads
    again for every byte after the mutex has been released, exactly as the C code does. */
module LogProtocol {
  import opened Types

  /** What a thread does after its flush. */
  datatype Next =
    | Resume(rec: string, k: nat)  // go on filling from byte k of the record
    | Last                         // release the mutex and return
    | Leave                        // return: the caller only wanted a flush

  datatype Thread =
    | Idle
    | WantMutex(rec: string)
    | WantRead(rec: string)                        // has the mutex
    | Deciding(rec: string)                        // has the mutex and a read lock
    | Reserved(rec: string, start: nat)            // the same, and the head was moved
    | Copying(rec: string, start: nat, i: nat)     // has a read lock; i bytes are copied
    | Filling(rec: string, k: nat, partial: bool)  // has the mutex and a read lock; k bytes done
    | WantWrite(next: Next)                        // has the mutex unless it will leave
    | Flushing(next: Next)                         // the same, and the write lock
    | WantReadAgain(rec: string, k: nat)           // has the mutex
    | Releasing                                    // has the mutex

  /** A record and the thread that logs it. */
  datatype Entry = Entry(t: nat, rec: string)

  /** `owner` and `records` are history: who reserved each byte below the head, and every record
      in the order in which log_buf made room for it. */
  datatype Log = Log(
    buf: seq<char>, head: nat, file: string,
    mutex: Option<nat>, readers: set<nat>, writer: Option<nat>,
    threads: seq<Thread>, owner: seq<nat>, records: seq<Entry>)

  datatype Step = Call(t: nat, rec: string) | Flush(t: nat) | Run(t: nat)

  // ---------------------------------------------------------------- the steps

  predicate HasMutex(x: Thread) {
    match x
    case Idle => false
    case WantMutex(_) => false
    case Copying(_, _, _) => false
    case WantWrite(next) => next != Leave
    case Flushing(next) => next != Leave
    case _ => true
  }

  predicate HasRead(x: Thread) {
    x.Deciding? || x.Reserved? || x.Copying? || x.Filling?
  }

  function Size(s: Log): nat { |s.buf| }

  /** Where the next byte of a fast copy goes: counted back from the present head. */
  function Place(s: Log, x: Thread): int
    requires x.Copying? && x.i <= |x.rec|
  {
    s.head - (|x.rec| - x.i)
  }

  predicate InBounds(s: Log, x: Thread) {
    match x
    case Copying(rec, _, i) => i <= |rec| && (i < |rec| ==> 0 <= Place(s, x) < Size(s))
    case Filling(rec, k, _) => k <= |rec|
    case Flushing(_) => s.head <= Size(s)
    case _ => true
  }

  predicate CanRun(s: Log, t: nat) {
    && t < |s.threads|
    && InBounds(s, s.threads[t])
    && match s.threads[t]
       case Idle => false
       case WantMutex(_) => s.mutex == None
       case WantRead(_) => s.writer == None
       case WantReadAgain(_, _) => s.writer == None
       case WantWrite(_) => s.writer == None && s.readers == {}
       case _ => true
  }

  function Set(s: Log, t: nat, x: Thread): Log
    requires t < |s.threads|
  {
    s.(threads := s.threads[t := x])
  }

  function DoRun(s: Log, t: nat): Log
    requires CanRun(s, t)
  {
    match s.threads[t]
    case Idle => s
    case WantMutex(rec) => Set(s, t, WantRead(rec)).(mutex := Some(t))
    case WantRead(rec) => Set(s, t, Deciding(rec)).(readers := s.readers + {t})
    case Deciding(rec) => Decide(s, t, rec)
    case Reserved(rec, start) => Set(s, t, Copying(rec, start, 0)).(mutex := None)
    case Copying(rec, start, i) =>
      if i < |rec| then
        Set(s, t, Copying(rec, start, i + 1)).(buf := s.buf[Place(s, s.threads[t]) := rec[i]])
      else
        Set(s, t, Idle).(readers := s.readers - {t})
    case Filling(rec, k, partial) => Fill(s, t, rec, k, partial)
    case WantWrite(next) => Set(s, t, Flushing(next)).(writer := Some(t))
    case Flushing(next) =>
      if s.head > 0 then s.(file := s.file + s.buf[..s.head], head := 0, owner := [])
      else Set(s, t, Flushed(next)).(writer := None)
    case WantReadAgain(rec, k) => Set(s, t, Filling(rec, k, true)).(readers := s.readers + {t})
    case Releasing => Set(s, t, Idle).(mutex := None)
  }

  /** The test of log_buf: make room at once, or fill byte by byte. */
  function Decide(s: Log, t: nat, rec: string): Log
    requires t < |s.threads|
  {
    if s.head + |rec| < Size(s) then
      Set(s, t, Reserved(rec, s.head)).(
        head := s.head + |rec|, owner := s.owner + seq(|rec|, _ => t), records := s.records + [Entry(t, rec)])
    else
      Set(s, t, Filling(rec, 0, false)).(records := s.records + [Entry(t, rec)])
  }

  /** One turn of the slow path. */
  function Fill(s: Log, t: nat, rec: string, k: nat, partial: bool): Log
    requires t < |s.threads| && k <= |rec|
  {
    if s.head < Size(s) && k < |rec| then
      Set(s, t, Filling(rec, k + 1, partial)).(
        buf := s.buf[s.head := rec[k]], head := s.head + 1, owner := s.owner + [t])
    else if s.head == Size(s) then
      Set(s, t, WantWrite(Resume(rec, k))).(readers := s.readers - {t})
    else if partial && s.head != 0 then
      Set(s, t, WantWrite(Last)).(readers := s.readers - {t})
    else
      Set(s, t, Releasing).(readers := s.readers - {t})
  }

  function Flushed(next: Next): Thread {
    match next
    case Resume(rec, k) => WantReadAgain(rec, k)
    case Last => Releasing
    case Leave => Idle
  }

  predicate Enabled(s: Log, step: Step) {
    && step.t < |s.threads|
    && match step
       case Call(t, _) => s.threads[t] == Idle
       case Flush(t) => s.threads[t] == Idle
       case Run(t) => CanRun(s, t)
  }

  function Apply(s: Log, step: Step): Log
    requires Enabled(s, step)
  {
    match step
    case Call(t, rec) => Set(s, t, WantMutex(rec))
    case Flush(t) => Set(s, t, WantWrite(Leave))
    case Run(t) => DoRun(s, t)
  }

  function Start(n: nat, buf: seq<char>): Log {
    Log(buf, 0, "", None, {}, None, seq(n, _ => Idle), [], [])
  }

  predicate IsRun(s: Log, steps: seq<Step>)
    decreases |steps|
  {
    steps == [] || (Enabled(s, steps[0]) && IsRun(Apply(s, steps[0]), steps[1..]))
  }

  function After(s: Log, steps: seq<Step>): Log
    requires IsRun(s, steps)
    decreases |steps|
  {
    if steps == [] then s else After(Apply(s, steps[0]), steps[1..])
  }

  // ---------------------------------------------------------------- what every step keeps

  function Flat(records: seq<Entry>): string {
    if records == [] then "" else Flat(records[..|records| - 1]) + records[|records| - 1].rec
  }

  lemma FlatPush(records: seq<Entry>, e: Entry)
    ensures Flat(records + [e]) == Flat(records) + e.rec
  {
    assert (records + [e])[..|records|] == records;
  }

  /** Each lock is held exactly by the threads that believe they hold it. */
  predicate Locks(s: Log) {
    && (forall t | 0 <= t < |s.threads| ::
          && (HasMutex(s.threads[t]) <==> s.mutex == Some(t))
          && (HasRead(s.threads[t]) <==> t in s.readers)
          && (s.threads[t].Flushing? <==> s.writer == Some(t)))
    && (forall t | t in s.readers :: t < |s.threads|)
    && (s.mutex.Some? ==> s.mutex.value < |s.threads|)
    && (s.writer.Some? ==> s.writer.value < |s.threads| && s.readers == {})
  }

  /** The bytes a thread has reserved, and those it has still to copy. */
  predicate InRegion(x: Thread, p: nat) {
    match x
    case Reserved(rec, start) => start <= p < start + |rec|
    case Copying(rec, start, _) => start <= p < start + |rec|
    case _ => false
  }

  predicate Uncopied(x: Thread, p: nat) {
    match x
    case Reserved(rec, start) => start <= p < start + |rec|
    case Copying(rec, start, i) => start + i <= p < start + |rec|
    case _ => false
  }

  predicate ThreadOk(s: Log, t: nat)
    requires t < |s.threads|
  {
    match s.threads[t]
    case Deciding(_) => s.head < Size(s)
    case Reserved(rec, start) => start + |rec| <= s.head
    case Copying(rec, start, i) => start + |rec| <= s.head && i <= |rec|
    case Filling(rec, k, partial) => k <= |rec| && (!partial ==> s.head + |rec| - k >= Size(s))
    case WantWrite(next) => next.Resume? ==> next.k <= |next.rec|
    case Flushing(next) => next.Resume? ==> next.k <= |next.rec|
    case WantReadAgain(rec, k) => k <= |rec| && s.head < Size(s)
    case Releasing => s.head == 0
    case _ => true
  }

  /** The thread that has met the end of the buffer and not yet flushed. */
  predicate AtEnd(x: Thread) {
    match x
    case Filling(_, _, _) => true
    case WantWrite(next) => next.Resume?
    case Flushing(next) => next.Resume?
    case _ => false
  }

  /** Every byte below the head was reserved by one thread; the buffer is full only while a
      thread is on its way to flush it. */
  ghost predicate Tiled(s: Log) {
    && |s.owner| == s.head <= Size(s)
    && (forall t | 0 <= t < |s.threads| :: ThreadOk(s, t))
    && (forall t, p: nat {:trigger InRegion(s.threads[t], p)} |
          0 <= t < |s.threads| && InRegion(s.threads[t], p) :: p < s.head && s.owner[p] == t)
    && (s.head == Size(s) ==> s.mutex.Some? && s.mutex.value < |s.threads| && AtEnd(s.threads[s.mutex.value]))
  }

  ghost predicate Inv(s: Log) { Size(s) > 0 && Locks(s) && Tiled(s) }

  /** Thread t moves to x and the locks follow. */
  predicate Moves(s: Log, u: Log, t: nat, x: Thread) {
    && t < |s.threads|
    && u.threads == s.threads[t := x]
    && (HasMutex(x) ==> s.mutex == None || s.mutex == Some(t))
    && (HasRead(x) ==> s.writer == None)
    && (x.Flushing? ==> (s.writer == None || s.writer == Some(t)) && s.readers == {})
    && u.mutex == (if HasMutex(x) then Some(t) else if s.mutex == Some(t) then None else s.mutex)
    && u.readers == (if HasRead(x) then s.readers + {t} else s.readers - {t})
    && u.writer == (if x.Flushing? then Some(t) else if s.writer == Some(t) then None else s.writer)
  }

  lemma LocksMove(s: Log, u: Log, t: nat, x: Thread)
    requires Locks(s) && Moves(s, u, t, x)
    ensures Locks(u)
  {
    hide HasMutex;
    forall k | 0 <= k < |u.threads|
      ensures (HasMutex(u.threads[k]) <==> u.mutex == Some(k))
           && (HasRead(u.threads[k]) <==> k in u.readers)
           && (u.threads[k].Flushing? <==> u.writer == Some(k))
    {
      if k != t {
        assert u.threads[k] == s.threads[k];
      }
    }
  }

  lemma StepMoves(s: Log, step: Step)
    requires Locks(s) && Enabled(s, step)
    ensures |Apply(s, step).threads| == |s.threads|
    ensures Moves(s, Apply(s, step), step.t, Apply(s, step).threads[step.t])
  {
    hide InBounds, Place;
    assert HasMutex(s.threads[step.t]) <==> s.mutex == Some(step.t);
    assert HasRead(s.threads[step.t]) <==> step.t in s.readers;
    assert s.threads[step.t].Flushing? <==> s.writer == Some(step.t);
  }

  lemma LocksKept(s: Log, step: Step)
    requires Locks(s) && Enabled(s, step)
    ensures Locks(Apply(s, step))
  {
    hide Locks, Moves;
    StepMoves(s, step);
    LocksMove(s, Apply(s, step), step.t, Apply(s, step).threads[step.t]);
  }

  /** The head and the history stay: only the thread's own region may shrink away. */
  lemma TiledQuiet(s: Log, u: Log, t: nat, x: Thread)
    requires Locks(s) && Tiled(s) && Moves(s, u, t, x)
    requires u.head == s.head && Size(u) == Size(s) && u.owner == s.owner
    requires ThreadOk(u, t)
    requires forall p: nat :: InRegion(x, p) ==> InRegion(s.threads[t], p)
    requires HasMutex(s.threads[t]) && AtEnd(s.threads[t]) && s.head == Size(s) ==> HasMutex(x) && AtEnd(x)
    ensures Tiled(u)
  {
    hide InRegion, HasRead;
    forall k | 0 <= k < |u.threads| ensures ThreadOk(u, k) {
      assert ThreadOk(s, k);
    }
    forall k, p: nat | 0 <= k < |u.threads| && InRegion(u.threads[k], p)
      ensures p < u.head && u.owner[p] == k
    {
      assert u.threads[k] == if k == t then x else s.threads[k];
      assert InRegion(s.threads[k], p);
    }
    if u.head == Size(u) {
      var m := s.mutex.value;
      assert HasMutex(s.threads[m]) && AtEnd(s.threads[m]);
      assert t != m ==> u.threads[m] == s.threads[m];
    }
  }

  /** The three steps that move the head. */
  predicate Reserves(s: Log, step: Step) {
    && step.Run? && step.t < |s.threads| && s.threads[step.t].Deciding?
    && s.head + |s.threads[step.t].rec| < Size(s)
  }

  predicate Fills(s: Log, step: Step) {
    && step.Run? && step.t < |s.threads| && s.threads[step.t].Filling?
    && s.head < Size(s) && s.threads[step.t].k < |s.threads[step.t].rec|
  }

  predicate Writes(s: Log, step: Step) {
    step.Run? && step.t < |s.threads| && s.threads[step.t].Flushing? && s.head > 0
  }

  lemma TiledReserve(s: Log, step: Step)
    requires Locks(s) && Tiled(s) && Enabled(s, step) && Reserves(s, step)
    ensures Tiled(Apply(s, step))
  {
    var u := Apply(s, step);
    forall k, p: nat | 0 <= k < |u.threads| && InRegion(u.threads[k], p)
      ensures p < u.head && u.owner[p] == k
    {
      if k != step.t {
        assert InRegion(s.threads[k], p);
      }
    }
    forall k | 0 <= k < |u.threads| ensures ThreadOk(u, k) {
      assert ThreadOk(s, k);
      assert k != step.t ==> !HasMutex(s.threads[k]);
    }
  }

  lemma TiledFill(s: Log, step: Step)
    requires Locks(s) && Tiled(s) && Enabled(s, step) && Fills(s, step)
    ensures Tiled(Apply(s, step))
  {
    var u := Apply(s, step);
    forall k, p: nat | 0 <= k < |u.threads| && InRegion(u.threads[k], p)
      ensures p < u.head && u.owner[p] == k
    {
      assert InRegion(s.threads[k], p);
    }
    forall k | 0 <= k < |u.threads| ensures ThreadOk(u, k) {
      assert ThreadOk(s, k);
      assert k != step.t ==> !HasMutex(s.threads[k]);
    }
  }

  /** While the write lock is held no region is uncopied, or even reserved. */
  lemma NoRegionWhileFlushing(s: Log, t: nat, k: nat, p: nat)
    requires Locks(s) && t < |s.threads| && s.threads[t].Flushing? && k < |s.threads|
    ensures !InRegion(s.threads[k], p) && !HasRead(s.threads[k])
  {
    assert HasRead(s.threads[k]) <==> k in s.readers;
  }

  lemma TiledWrite(s: Log, step: Step)
    requires Locks(s) && Tiled(s) && Enabled(s, step) && Writes(s, step) && Size(s) > 0
    ensures Tiled(Apply(s, step))
  {
    var u := Apply(s, step);
    forall k | 0 <= k < |u.threads| ensures ThreadOk(u, k) {
      assert ThreadOk(s, k);
      NoRegionWhileFlushing(s, step.t, k, 0);
    }
    forall k, p: nat | 0 <= k < |u.threads| && InRegion(u.threads[k], p) ensures false {
      NoRegionWhileFlushing(s, step.t, k, p);
    }
  }

  lemma TiledKept(s: Log, step: Step)
    requires Inv(s) && Enabled(s, step)
    ensures Tiled(Apply(s, step))
  {
    if Reserves(s, step) {
      TiledReserve(s, step);
    } else if Fills(s, step) {
      TiledFill(s, step);
    } else if Writes(s, step) {
      TiledWrite(s, step);
    } else {
      StepMoves(s, step);
      QuietSteps(s, step);
      TiledQuiet(s, Apply(s, step), step.t, Apply(s, step).threads[step.t]);
    }
  }

  lemma QuietSteps(s: Log, step: Step)
    requires Inv(s) && Enabled(s, step)
    requires !Reserves(s, step) && !Fills(s, step) && !Writes(s, step)
    ensures var u := Apply(s, step);
            && u.head == s.head && Size(u) == Size(s) && u.owner == s.owner && ThreadOk(u, step.t)
    ensures var x := Apply(s, step).threads[step.t]; var y := s.threads[step.t];
            && (forall p: nat :: InRegion(x, p) ==> InRegion(y, p))
            && (HasMutex(y) && AtEnd(y) && s.head == Size(s) ==> HasMutex(x) && AtEnd(x))
  {
    assert ThreadOk(s, step.t);
    assert HasMutex(s.threads[step.t]) <==> s.mutex == Some(step.t);
  }

  lemma StepKeeps(s: Log, step: Step)
    requires Inv(s) && Enabled(s, step)
    ensures Inv(Apply(s, step))
  {
    LocksKept(s, step);
    TiledKept(s, step);
  }

  // ---------------------------------------------------------------- the contents

  /** What the thread in the slow path has still to put into the buffer. */
  function RestOf(x: Thread): string {
    match x
    case Filling(rec, k, _) => if k <= |rec| then rec[k..] else ""
    case WantWrite(Resume(rec, k)) => if k <= |rec| then rec[k..] else ""
    case Flushing(Resume(rec, k)) => if k <= |rec| then rec[k..] else ""
    case WantReadAgain(rec, k) => if k <= |rec| then rec[k..] else ""
    case _ => ""
  }

  function Rest(s: Log): string {
    if s.mutex.Some? && s.mutex.value < |s.threads| then RestOf(s.threads[s.mutex.value]) else ""
  }

  predicate Copied(s: Log, p: nat) {
    forall t | 0 <= t < |s.threads| :: !Uncopied(s.threads[t], p)
  }

  /** `all` is the file, then the buffer up to the head but for the bytes still to be copied,
      then the rest of the record in the slow path. */
  ghost predicate Reads(s: Log, all: string) {
    && |all| == |s.file| + s.head + |Rest(s)| && s.head <= Size(s)
    && s.file == all[..|s.file|]
    && Rest(s) == all[|s.file| + s.head..]
    && (forall p: nat | p < s.head && Copied(s, p) :: s.buf[p] == all[|s.file| + p])
    && (forall t, p: nat {:trigger InRegion(s.threads[t], p)} |
          0 <= t < |s.threads| && InRegion(s.threads[t], p) ::
          p < s.head && s.threads[t].rec[p - s.threads[t].start] == all[|s.file| + p])
  }

  predicate StillCopying(x: Thread) { x.Copying? && x.i < |x.rec| }

  /** The copy step that is about to be taken puts its byte where it was reserved. */
  predicate Undisturbed(s: Log, step: Step) {
    step.Run? && step.t < |s.threads| && StillCopying(s.threads[step.t]) ==>
      s.threads[step.t].start + |s.threads[step.t].rec| == s.head
  }

  /** Such a step writes the byte to the thread's own region exactly when the head is still
      where this thread left it. */
  lemma CopyLandsExactly(s: Log, t: nat)
    requires Inv(s) && t < |s.threads| && StillCopying(s.threads[t])
    ensures var x := s.threads[t];
            && 0 <= Place(s, x) < s.head
            && (Place(s, x) == x.start + x.i <==> Undisturbed(s, Run(t)))
  {
    assert ThreadOk(s, t);
  }

  lemma RestMove(s: Log, u: Log, t: nat, x: Thread)
    requires Locks(s) && Moves(s, u, t, x) && RestOf(x) == RestOf(s.threads[t])
    ensures Rest(u) == Rest(s)
  {
    assert HasMutex(s.threads[t]) <==> s.mutex == Some(t);
  }

  lemma ReadsReserve(s: Log, step: Step, all: string)
    requires Inv(s) && Reads(s, all) && Enabled(s, step) && Reserves(s, step)
    ensures Reads(Apply(s, step), all + s.threads[step.t].rec)
  {
    var u, rec := Apply(s, step), s.threads[step.t].rec;
    assert s.mutex == Some(step.t) by { assert HasMutex(s.threads[step.t]); }
    assert (all + rec)[..|s.file|] == all[..|s.file|];
    assert (all + rec)[|s.file| + u.head..] == "";
    forall p: nat | p < u.head && Copied(u, p) ensures u.buf[p] == (all + rec)[|s.file| + p] {
      assert !Uncopied(u.threads[step.t], p);
      assert Copied(s, p) by {
        forall k | 0 <= k < |s.threads| ensures !Uncopied(s.threads[k], p) {
          assert !Uncopied(u.threads[k], p);
        }
      }
    }
    forall k, p: nat | 0 <= k < |u.threads| && InRegion(u.threads[k], p)
      ensures p < u.head && u.threads[k].rec[p - u.threads[k].start] == (all + rec)[|s.file| + p]
    {
      if k != step.t {
        assert InRegion(s.threads[k], p);
      }
    }
  }

  predicate DecidesSlow(s: Log, step: Step) {
    && step.Run? && step.t < |s.threads| && s.threads[step.t].Deciding?
    && s.head + |s.threads[step.t].rec| >= Size(s)
  }

  lemma ReadsSlow(s: Log, step: Step, all: string)
    requires Inv(s) && Reads(s, all) && Enabled(s, step) && DecidesSlow(s, step)
    ensures Reads(Apply(s, step), all + s.threads[step.t].rec)
  {
    var u, rec := Apply(s, step), s.threads[step.t].rec;
    assert s.mutex == Some(step.t) by { assert HasMutex(s.threads[step.t]); }
    assert (all + rec)[..|s.file|] == all[..|s.file|];
    assert (all + rec)[|s.file| + s.head..] == rec;
    hide Locks, Tiled;
    SameCopied(s, u, step.t);
    forall k, p: nat | 0 <= k < |u.threads| && InRegion(u.threads[k], p)
      ensures p < u.head && u.threads[k].rec[p - u.threads[k].start] == (all + rec)[|s.file| + p]
    {
      assert InRegion(s.threads[k], p);
    }
  }

  /** A thread that has nothing to copy, before and after, changes nothing for the others. */
  lemma SameCopied(s: Log, u: Log, t: nat)
    requires t < |s.threads| && |u.threads| == |s.threads| && u.threads == s.threads[t := u.threads[t]]
    requires forall p: nat :: Uncopied(u.threads[t], p) <==> Uncopied(s.threads[t], p)
    ensures forall p: nat :: Copied(u, p) <==> Copied(s, p)
  {
    forall p: nat ensures Copied(u, p) <==> Copied(s, p) {
      forall k | 0 <= k < |s.threads| ensures Uncopied(s.threads[k], p) <==> Uncopied(u.threads[k], p) {
        assert k != t ==> u.threads[k] == s.threads[k];
      }
    }
  }

  lemma ReadsCopy(s: Log, step: Step, all: string)
    requires Inv(s) && Reads(s, all) && Enabled(s, step) && Undisturbed(s, step)
    requires step.Run? && StillCopying(s.threads[step.t])
    ensures Reads(Apply(s, step), all)
  {
    var u, x := Apply(s, step), s.threads[step.t];
    var q := x.start + x.i;
    assert InRegion(x, q);
    SameRest(s, u, step);
    forall p: nat | p < u.head && Copied(u, p) ensures u.buf[p] == all[|s.file| + p] {
      if p != q {
        forall k | 0 <= k < |s.threads| ensures !Uncopied(s.threads[k], p) {
          assert !Uncopied(u.threads[k], p);
        }
        assert Copied(s, p);
      }
    }
    forall k, p: nat | 0 <= k < |u.threads| && InRegion(u.threads[k], p)
      ensures p < u.head && u.threads[k].rec[p - u.threads[k].start] == all[|s.file| + p]
    {
      assert InRegion(s.threads[k], p);
    }
  }

  lemma SameRest(s: Log, u: Log, step: Step)
    requires Inv(s) && Enabled(s, step) && u == Apply(s, step)
    requires RestOf(u.threads[step.t]) == RestOf(s.threads[step.t])
    ensures Rest(u) == Rest(s)
  {
    StepMoves(s, step);
    RestMove(s, u, step.t, u.threads[step.t]);
  }

  lemma ReadsFill(s: Log, step: Step, all: string)
    requires Inv(s) && Reads(s, all) && Enabled(s, step) && Fills(s, step)
    ensures Reads(Apply(s, step), all)
  {
    var u, rec, k := Apply(s, step), s.threads[step.t].rec, s.threads[step.t].k;
    assert s.mutex == Some(step.t) by { assert HasMutex(s.threads[step.t]); }
    assert Rest(s)[0] == rec[k] == all[|s.file| + s.head];
    assert Rest(u) == Rest(s)[1..] == all[|s.file| + u.head..];
    SameCopied(s, u, step.t);
    forall t, p: nat | 0 <= t < |u.threads| && InRegion(u.threads[t], p)
      ensures p < u.head && u.threads[t].rec[p - u.threads[t].start] == all[|s.file| + p]
    {
      assert InRegion(s.threads[t], p);
    }
  }

  lemma ReadsWrite(s: Log, step: Step, all: string)
    requires Inv(s) && Reads(s, all) && Enabled(s, step) && Writes(s, step)
    ensures Reads(Apply(s, step), all)
  {
    var u := Apply(s, step);
    SameRest(s, u, step);
    forall p: nat | p < s.head ensures s.buf[p] == all[|s.file| + p] {
      forall k | 0 <= k < |s.threads| ensures !Uncopied(s.threads[k], p) {
        NoRegionWhileFlushing(s, step.t, k, p);
      }
      assert Copied(s, p);
    }
    assert s.buf[..s.head] == all[|s.file|..|s.file| + s.head];
    forall k, p: nat | 0 <= k < |u.threads| && InRegion(u.threads[k], p) ensures false {
      NoRegionWhileFlushing(s, step.t, k, p);
    }
  }

  /** The steps that touch neither the bytes nor the history. */
  predicate Silent(s: Log, step: Step) {
    && !Reserves(s, step) && !DecidesSlow(s, step) && !Fills(s, step) && !Writes(s, step)
    && !(step.Run? && step.t < |s.threads| && StillCopying(s.threads[step.t]))
  }

  lemma SilentSteps(s: Log, step: Step)
    requires Inv(s) && Enabled(s, step) && Silent(s, step)
    ensures var u := Apply(s, step);
            && u.buf == s.buf && u.head == s.head && u.file == s.file && u.records == s.records
            && RestOf(u.threads[step.t]) == RestOf(s.threads[step.t])
            && (forall p: nat :: Uncopied(u.threads[step.t], p) <==> Uncopied(s.threads[step.t], p))
            && (forall p: nat | InRegion(u.threads[step.t], p) ::
                  InRegion(s.threads[step.t], p) && u.threads[step.t].rec == s.threads[step.t].rec
                  && u.threads[step.t].start == s.threads[step.t].start)
  {
    assert ThreadOk(s, step.t);
    assert HasMutex(s.threads[step.t]) <==> s.mutex == Some(step.t);
  }

  lemma ReadsSilent(s: Log, step: Step, all: string)
    requires Inv(s) && Reads(s, all) && Enabled(s, step) && Silent(s, step)
    ensures Reads(Apply(s, step), all)
  {
    var u := Apply(s, step);
    StepMoves(s, step);
    SilentSteps(s, step);
    SameRest(s, u, step);
    SameCopied(s, u, step.t);
    hide Inv, Apply, Enabled, Silent, Copied;
    forall k, p: nat | 0 <= k < |u.threads| && InRegion(u.threads[k], p)
      ensures p < u.head && u.threads[k].rec[p - u.threads[k].start] == all[|s.file| + p]
    {
      assert InRegion(s.threads[k], p);
    }
  }

  /** The log as the records of all calls so far, in the order in which room was made for them. */
  ghost predicate Faithful(s: Log) {
    Reads(s, Flat(s.records))
  }

  lemma FaithfulKept(s: Log, step: Step)
    requires Inv(s) && Faithful(s) && Enabled(s, step) && Undisturbed(s, step)
    ensures Faithful(Apply(s, step))
  {
    hide Reads, Inv;
    var all := Flat(s.records);
    if Reserves(s, step) || DecidesSlow(s, step) {
      FlatPush(s.records, Entry(step.t, s.threads[step.t].rec));
      if Reserves(s, step) {
        ReadsReserve(s, step, all);
      } else {
        ReadsSlow(s, step, all);
      }
    } else if Fills(s, step) {
      ReadsFill(s, step, all);
    } else if Writes(s, step) {
      ReadsWrite(s, step, all);
    } else if step.Run? && StillCopying(s.threads[step.t]) {
      ReadsCopy(s, step, all);
    } else {
      ReadsSilent(s, step, all);
      SilentSteps(s, step);
    }
  }

  // ---------------------------------------------------------------- whole runs

  lemma StartKeeps(n: nat, buf: seq<char>)
    requires |buf| > 0
    ensures Inv(Start(n, buf)) && Faithful(Start(n, buf)) && Timely(Start(n, buf))
  {}

  lemma {:induction false} RunKeeps(s: Log, steps: seq<Step>)
    requires Inv(s) && IsRun(s, steps)
    ensures Inv(After(s, steps))
    decreases |steps|
  {
    if steps != [] {
      hide Inv;
      StepKeeps(s, steps[0]);
      RunKeeps(Apply(s, steps[0]), steps[1..]);
    }
  }

  predicate AllUndisturbed(s: Log, steps: seq<Step>)
    requires IsRun(s, steps)
    decreases |steps|
  {
    steps == [] || (Undisturbed(s, steps[0]) && AllUndisturbed(Apply(s, steps[0]), steps[1..]))
  }

  lemma {:induction false} FaithfulRun(s: Log, steps: seq<Step>)
    requires Inv(s) && Faithful(s) && IsRun(s, steps) && AllUndisturbed(s, steps)
    ensures Inv(After(s, steps)) && Faithful(After(s, steps))
    decreases |steps|
  {
    if steps != [] {
      hide Inv, Faithful;
      StepKeeps(s, steps[0]);
      FaithfulKept(s, steps[0]);
      FaithfulRun(Apply(s, steps[0]), steps[1..]);
    }
  }

  predicate AllIdle(s: Log) {
    forall t | 0 <= t < |s.threads| :: s.threads[t] == Idle
  }

  function Contents(s: Log): string
    requires s.head <= Size(s)
  {
    s.file + s.buf[..s.head]
  }

  /** What any step finds in range in every reachable state: no copy goes outside the buffer. */
  lemma AlwaysInBounds(s: Log, t: nat)
    requires Inv(s) && t < |s.threads|
    ensures InBounds(s, s.threads[t])
  {
    assert ThreadOk(s, t);
  }

  /** Regions reserved by different threads never share a byte, and lie below the head. */
  lemma RegionsApart(s: Log, t: nat, k: nat, p: nat)
    requires Inv(s) && t < |s.threads| && k < |s.threads| && t != k && InRegion(s.threads[t], p)
    ensures p < s.head && !InRegion(s.threads[k], p)
  {}

  /** A flush runs only when nothing is reserved and uncopied. */
  lemma FlushFindsAllCopied(s: Log, t: nat, p: nat)
    requires Inv(s) && t < |s.threads| && s.threads[t].Flushing?
    ensures Copied(s, p)
  {
    forall k | 0 <= k < |s.threads| ensures !Uncopied(s.threads[k], p) {
      NoRegionWhileFlushing(s, t, k, p);
    }
  }

  // ---------------------------------------------------------------- overlapping copies

  /** Bytes a fast copy has still to put in place. */
  predicate Pending(x: Thread) {
    StillCopying(x) || (x.Reserved? && x.rec != "")
  }

  /** The head is where every unfinished fast copy left it. */
  predicate Timely(s: Log) {
    forall t | 0 <= t < |s.threads| && Pending(s.threads[t]) ::
      s.threads[t].start + |s.threads[t].rec| == s.head
  }

  /** A step that moves the head up while another thread's fast copy is unfinished. */
  predicate Overlaps(s: Log, step: Step) {
    && ((Reserves(s, step) && s.threads[step.t].rec != "") || Fills(s, step))
    && exists k | 0 <= k < |s.threads| :: k != step.t && Pending(s.threads[k])
  }

  lemma TimelyKeptExactly(s: Log, step: Step)
    requires Inv(s) && Timely(s) && Enabled(s, step)
    ensures Timely(Apply(s, step)) <==> !Overlaps(s, step)
  {
    var u := Apply(s, step);
    if Overlaps(s, step) {
      var k :| 0 <= k < |s.threads| && k != step.t && Pending(s.threads[k]);
      assert u.threads[k] == s.threads[k] && u.head > s.head;
    } else {
      forall k | 0 <= k < |u.threads| && Pending(u.threads[k])
        ensures u.threads[k].start + |u.threads[k].rec| == u.head
      {
        TimelyThread(s, step, k);
      }
    }
  }

  lemma TimelyThread(s: Log, step: Step, k: nat)
    requires Inv(s) && Timely(s) && Enabled(s, step) && !Overlaps(s, step)
    requires var u := Apply(s, step); k < |u.threads| && Pending(u.threads[k])
    ensures var u := Apply(s, step); u.threads[k].start + |u.threads[k].rec| == u.head
  {
    if k == step.t {
      TimelyOwn(s, step);
    } else {
      var u := Apply(s, step);
      assert u.threads[k] == s.threads[k];
      assert HasRead(s.threads[k]);
    }
  }

  lemma TimelyOwn(s: Log, step: Step)
    requires Inv(s) && Timely(s) && Enabled(s, step)
    requires var u := Apply(s, step); step.t < |u.threads| && Pending(u.threads[step.t])
    ensures var u := Apply(s, step); u.threads[step.t].start + |u.threads[step.t].rec| == u.head
  {
    hide Locks;
    assert ThreadOk(s, step.t);
  }

  predicate NoneOverlaps(s: Log, steps: seq<Step>)
    requires IsRun(s, steps)
    decreases |steps|
  {
    steps == [] || (!Overlaps(s, steps[0]) && NoneOverlaps(Apply(s, steps[0]), steps[1..]))
  }

  lemma {:induction false} NoOverlapIsUndisturbed(s: Log, steps: seq<Step>)
    requires Inv(s) && Timely(s) && IsRun(s, steps) && NoneOverlaps(s, steps)
    ensures AllUndisturbed(s, steps)
    decreases |steps|
  {
    if steps != [] {
      assert Undisturbed(s, steps[0]);
      hide Inv, Timely;
      StepKeeps(s, steps[0]);
      TimelyKeptExactly(s, steps[0]);
      NoOverlapIsUndisturbed(Apply(s, steps[0]), steps[1..]);
    }
  }

  /** An unfinished fast copy that the head has left behind. */
  predicate Stale(s: Log, t: nat) {
    t < |s.threads| && Pending(s.threads[t]) && s.threads[t].start + |s.threads[t].rec| < s.head
  }

  lemma StaleStays(s: Log, step: Step, t: nat)
    requires Inv(s) && Stale(s, t) && Enabled(s, step) && Undisturbed(s, step)
    ensures Stale(Apply(s, step), t)
  {
    assert HasRead(s.threads[t]) && ThreadOk(s, t);
  }

  lemma {:induction false} StaleForever(s: Log, steps: seq<Step>, t: nat)
    requires Inv(s) && Stale(s, t) && IsRun(s, steps) && AllUndisturbed(s, steps)
    ensures Stale(After(s, steps), t)
    decreases |steps|
  {
    if steps != [] {
      hide Inv, Stale;
      StepKeeps(s, steps[0]);
      StaleStays(s, steps[0], t);
      StaleForever(Apply(s, steps[0]), steps[1..], t);
    }
  }

  predicate NonePending(s: Log) {
    forall t | 0 <= t < |s.threads| :: !Pending(s.threads[t])
  }

  /** In a run that finishes every copy, each byte lands where it was reserved exactly when no
      call makes room while another thread's fast copy is unfinished. */
  lemma {:induction false} UndisturbedExactly(s: Log, steps: seq<Step>)
    requires Inv(s) && Timely(s) && IsRun(s, steps)
    requires NonePending(After(s, steps))
    ensures AllUndisturbed(s, steps) <==> NoneOverlaps(s, steps)
    decreases |steps|
  {
    if NoneOverlaps(s, steps) {
      NoOverlapIsUndisturbed(s, steps);
    } else if AllUndisturbed(s, steps) {
      var u := Apply(s, steps[0]);
      StepKeeps(s, steps[0]);
      hide Inv;
      if Overlaps(s, steps[0]) {
        var k :| 0 <= k < |s.threads| && k != steps[0].t && Pending(s.threads[k]);
        assert u.threads[k] == s.threads[k] && u.head > s.head;
        StaleForever(u, steps[1..], k);
      } else {
        TimelyKeptExactly(s, steps[0]);
        UndisturbedExactly(u, steps[1..]);
      }
    }
  }

  lemma IdleMeansAll(t: Log)
    requires Inv(t) && Faithful(t) && AllIdle(t)
    ensures t.head <= Size(t) && Contents(t) == Flat(t.records)
  {
    var all := Flat(t.records);
    assert Rest(t) == "";
    forall p: nat | p < t.head ensures t.buf[p] == all[|t.file| + p] {
      assert Copied(t, p);
    }
    assert Contents(t) == all;
  }
}
