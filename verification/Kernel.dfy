/** The operating system as one request sees it.  The client's byte stream, the answers to
    path look-ups and the schedule of every read and write are arbitrary constants, so a
    statement about an `Os` is a statement about every client, file system and schedule. */
module Kernel {
  import opened Types
  import opened Parser

  /** What the schedule lets a read or write do: move up to k bytes, report EAGAIN, report
      end of file, or fail. */
  datatype Event = Bytes(k: nat) | Again | End | Error

  /** READ_OK with the number of bytes, READ_AGAIN, READ_END and READ_ERROR. */
  datatype IoResult = Ready(n: nat) | WouldBlock | Closed | Failed

  datatype StatAnswer = NoEntry | StatError | Irregular | Regular

  /** What opening a path for writing does: truncates an existing file, creates a new one,
      fails to create it, or is refused although the path exists. */
  datatype PutAnswer = Truncates | Creates | CreateFails | Refused

  datatype OpenFile = Reading(bytes: string, offset: nat) | Writing(path: string)

  function Min(a: int, b: int): (m: int)
    ensures m <= a && m <= b && (m == a || m == b)
  {
    if a < b then a else b
  }

  /** How many bytes a transfer of at most `limit` bytes moves when the schedule offers k. */
  function Moved(k: nat, limit: nat): (m: nat)
    requires limit > 0
    ensures 1 <= m <= limit
  {
    if k == 0 then 1 else Min(k, limit)
  }

  /** How many operations from time `from` on and before time `end` report EAGAIN. */
  ghost function Agains(schedule: nat -> Event, from: nat, end: nat): nat
    decreases end
  {
    if end <= from then 0 else Agains(schedule, from, end - 1) + if schedule(end - 1).Again? then 1 else 0
  }

  lemma {:induction false} AgainsGrow(schedule: nat -> Event, from: nat, mid: nat, end: nat)
    requires mid <= end
    ensures Agains(schedule, from, mid) <= Agains(schedule, from, end)
    decreases end
  {
    if mid < end {
      AgainsGrow(schedule, from, mid, end - 1);
    }
  }

  /** Copies m bytes of s into the buffer. */
  method Transfer(buf: array<char>, at: nat, s: string, from: nat, m: nat)
    requires at + m <= buf.Length && from + m <= |s|
    modifies buf
    ensures buf[at..at + m] == s[from..from + m]
    ensures buf[..at] == old(buf[..at])
  {
    ghost var before := buf[..at];
    forall j | 0 <= j < m {
      buf[at + j] := s[from + j];
    }
    assert buf[at..at + m] == s[from..from + m];
    assert buf[..at] == before;
  }

  class Os {
    const stream: string               // every byte the client sends
    const early: nat                   // how many of them can arrive before the blank line is consumed
    const schedule: nat -> Event
    const getLookup: string -> GetAnswer
    const putLookup: string -> PutAnswer
    var clock: nat
    var drawn: nat                     // bytes of the stream read so far
    var sent: string                   // bytes written to the socket so far
    var faulted: bool                  // an operation failed, or the client closed the connection
    var nextFd: nat
    var open: map<int, OpenFile>
    var stored: map<string, string>    // files written by PUT

    ghost predicate Valid()
      reads this`drawn, this`nextFd, this`open, this`stored
    {
      && drawn <= |stream|
      && (forall path :: getLookup(path).Content? ==> |getLookup(path).bytes| < TWO_63)
      && (forall fd | fd in open :: 0 <= fd < nextFd)
      && (forall fd | fd in open && open[fd].Reading? ::
            open[fd].offset <= |open[fd].bytes| < TWO_63)
      && (forall fd | fd in open && open[fd].Writing? :: open[fd].path in stored)
    }

    /** The last operation since time `from` reported EAGAIN. */
    ghost predicate Blocked(from: nat)
      reads this`clock
    {
      clock > from && schedule(clock - 1).Again?
    }

    /** How many bytes can have arrived before the blank line is consumed. */
    ghost function Early(): (n: nat) {
      Min(early, |stream|)
    }

    constructor (stream: string, early: nat, schedule: nat -> Event,
                 getLookup: string -> GetAnswer, putLookup: string -> PutAnswer)
      requires forall path :: getLookup(path).Content? ==> |getLookup(path).bytes| < TWO_63
      ensures Valid() && open == map[] && drawn == 0 && sent == "" && !faulted
      ensures this.stream == stream && this.early == early && this.schedule == schedule
      ensures this.getLookup == getLookup && this.putLookup == putLookup
    {
      this.stream, this.early, this.schedule := stream, early, schedule;
      this.getLookup, this.putLookup := getLookup, putLookup;
      clock, drawn, sent, faulted := 0, 0, "", false;
      nextFd, open, stored := 3, map[], map[];
    }

    /** read(2) on the socket, of at most n bytes of what has arrived.  A count of zero reads
        nothing and returns 0; a count above SSIZE_MAX fails, as it does on Linux and macOS. */
    method ReadSocket(buf: array<char>, at: nat, n: nat, arrived: nat) returns (r: IoResult)
      requires Valid() && arrived <= |stream| && at <= buf.Length
      requires n < TWO_63 ==> at + Min(n, arrived - drawn) <= buf.Length
      modifies this`clock, this`drawn, this`faulted, buf
      ensures Valid() && old(drawn) <= drawn
      ensures old(faulted) ==> faulted
      ensures n == 0 ==> r == Closed
      ensures n >= TWO_63 ==> r == Failed
      ensures r.Ready? ==>
                && 1 <= r.n <= n < TWO_63 && drawn == old(drawn) + r.n <= arrived && at + r.n <= buf.Length
                && buf[at..at + r.n] == stream[old(drawn)..drawn]
                && buf[..at] == old(buf[..at])
      ensures !r.Ready? ==> drawn == old(drawn) && buf[..] == old(buf[..])
      ensures r.Failed? && n < TWO_63 ==> faulted
      ensures r.Closed? && n > 0 ==> faulted
      ensures 0 < n < TWO_63 ==>
                && (r.Failed? <==> schedule(old(clock)).Error?)
                && (r.Closed? <==> schedule(old(clock)).End?)
      ensures r.Ready? || r.WouldBlock? || n >= TWO_63 || n == 0 ==> faulted == old(faulted)
      ensures clock == old(clock) + 1
      ensures r.WouldBlock? ==> schedule(old(clock)).Again? || arrived <= old(drawn)
      ensures schedule(old(clock)).Bytes? || schedule(old(clock)).Again? ==> faulted == old(faulted)
      ensures schedule(old(clock)).Again? && 0 < n < TWO_63 ==> r.WouldBlock?
      ensures schedule(old(clock)).Bytes? && 0 < n < TWO_63 ==>
                if old(drawn) < arrived then
                  r.Ready? && r.n == Moved(schedule(old(clock)).k, Min(n, arrived - old(drawn)))
                else r.WouldBlock?
    {
      var e := schedule(clock);
      clock := clock + 1;
      if n == 0 { return Closed; }
      if n >= TWO_63 { return Failed; }
      match e
      case Bytes(k) =>
        if arrived <= drawn { return WouldBlock; }
        var m := Moved(k, Min(n, arrived - drawn));
        Transfer(buf, at, stream, drawn, m);
        drawn := drawn + m;
        return Ready(m);
      case Again => return WouldBlock;
      case End => faulted := true; return Closed;
      case Error => faulted := true; return Failed;
    }

    /** write(2) on the socket, of buf[from..to]. */
    method WriteSocket(buf: array<char>, from: nat, to: nat) returns (r: IoResult)
      requires Valid() && from < to <= buf.Length
      modifies this`clock, this`sent, this`faulted
      ensures Valid()
      ensures old(faulted) ==> faulted
      ensures r.Ready? ==> 1 <= r.n <= to - from && sent == old(sent) + buf[from..from + r.n]
      ensures !r.Ready? ==> sent == old(sent)
      ensures r.Failed? ==> faulted
      ensures r.Ready? || r.WouldBlock? ==> faulted == old(faulted)
      ensures !r.Closed? && clock == old(clock) + 1
      ensures r.WouldBlock? <==> schedule(old(clock)).Again?
      ensures schedule(old(clock)).Bytes? ==> r.Ready? && r.n == Moved(schedule(old(clock)).k, to - from)
    {
      var e := schedule(clock);
      clock := clock + 1;
      match e
      case Bytes(k) =>
        var m := Moved(k, to - from);
        sent := sent + buf[from..from + m];
        return Ready(m);
      case Again => return WouldBlock;
      case _ => faulted := true; return Failed;
    }

    method Lstat(path: string) returns (r: StatAnswer)
      ensures r == match getLookup(path)
                   case Missing => NoEntry
                   case StatFails => StatError
                   case NotRegular => Irregular
                   case OpenFails => Regular
                   case Content(_) => Regular
    {
      match getLookup(path)
      case Missing => return NoEntry;
      case StatFails => return StatError;
      case NotRegular => return Irregular;
      case OpenFails => return Regular;
      case Content(_) => return Regular;
    }

    /** open(path, O_RDONLY). */
    method OpenForReading(path: string) returns (fd: int)
      requires Valid()
      modifies this`open, this`nextFd
      ensures Valid()
      ensures !getLookup(path).Content? ==> fd == -1 && open == old(open)
      ensures getLookup(path).Content? ==>
                fd >= 0 && fd !in old(open) && open == old(open)[fd := Reading(getLookup(path).bytes, 0)]
    {
      if !getLookup(path).Content? { return -1; }
      fd := nextFd;
      nextFd := nextFd + 1;
      open := open[fd := Reading(getLookup(path).bytes, 0)];
    }

    /** open(path, O_WRONLY | O_TRUNC); `enoent` tells that the path does not exist. */
    method OpenTruncate(path: string) returns (fd: int, enoent: bool)
      requires Valid()
      modifies this`open, this`nextFd, this`stored
      ensures Valid()
      ensures enoent <==> putLookup(path).Creates? || putLookup(path).CreateFails?
      ensures !putLookup(path).Truncates? ==> fd == -1 && open == old(open) && stored == old(stored)
      ensures putLookup(path).Truncates? ==>
                && fd >= 0 && fd !in old(open) && open == old(open)[fd := Writing(path)]
                && stored == old(stored)[path := ""]
    {
      enoent := putLookup(path).Creates? || putLookup(path).CreateFails?;
      if !putLookup(path).Truncates? { return -1, enoent; }
      fd := nextFd;
      nextFd := nextFd + 1;
      open := open[fd := Writing(path)];
      stored := stored[path := ""];
    }

    /** open(path, O_CREAT | O_WRONLY) of a path that does not exist. */
    method OpenCreate(path: string) returns (fd: int)
      requires Valid()
      modifies this`open, this`nextFd, this`stored
      ensures Valid()
      ensures !putLookup(path).Creates? ==> fd == -1 && open == old(open) && stored == old(stored)
      ensures putLookup(path).Creates? ==>
                && fd >= 0 && fd !in old(open) && open == old(open)[fd := Writing(path)]
                && stored == old(stored)[path := ""]
    {
      if !putLookup(path).Creates? { return -1; }
      fd := nextFd;
      nextFd := nextFd + 1;
      open := open[fd := Writing(path)];
      stored := stored[path := ""];
    }

    /** read(2) on a file opened for reading, which never reports EAGAIN. */
    method ReadFile(fd: int, buf: array<char>, at: nat, n: nat) returns (r: IoResult)
      requires Valid() && fd in open && open[fd].Reading? && n > 0 && at + n <= buf.Length
      modifies this`clock, this`faulted, this`open, buf
      ensures Valid() && open.Keys == old(open.Keys) && fd in open && open[fd].Reading?
      ensures open[fd].offset <= |open[fd].bytes|
      ensures old(faulted) ==> faulted
      ensures open[fd].bytes == old(open[fd].bytes)
      ensures r.Ready? ==>
                && 1 <= r.n <= n && open[fd].offset == old(open[fd].offset) + r.n
                && buf[at..at + r.n] == open[fd].bytes[old(open[fd].offset)..open[fd].offset]
                && buf[..at] == old(buf[..at])
                && faulted == old(faulted)
      ensures r.Closed? ==> open == old(open) && open[fd].offset == |open[fd].bytes| && faulted == old(faulted)
      ensures r.Failed? ==> open == old(open) && faulted
      ensures !r.WouldBlock? && clock == old(clock) + 1
      ensures r.Failed? <==> schedule(old(clock)).Error?
    {
      var e := schedule(clock);
      clock := clock + 1;
      var file := open[fd];
      if e.Error? { faulted := true; return Failed; }
      if file.offset == |file.bytes| { return Closed; }
      var m := Moved(if e.Bytes? then e.k else 0, Min(n, |file.bytes| - file.offset));
      Transfer(buf, at, file.bytes, file.offset, m);
      open := open[fd := Reading(file.bytes, file.offset + m)];
      return Ready(m);
    }

    /** write(2) of buf[from..to] to a file opened for writing, which moves at least one byte
        or fails. */
    method WriteFile(fd: int, buf: array<char>, from: nat, to: nat) returns (r: IoResult)
      requires Valid() && fd in open && open[fd].Writing? && from < to <= buf.Length
      modifies this`clock, this`faulted, this`stored
      ensures Valid()
      ensures old(faulted) ==> faulted
      ensures r.Ready? ==>
                var path := open[fd].path;
                && 1 <= r.n <= to - from && faulted == old(faulted)
                && path in old(stored) && stored == old(stored)[path := old(stored[path]) + buf[from..from + r.n]]
      ensures !r.Ready? ==> r == Failed && stored == old(stored) && faulted
      ensures clock == old(clock) + 1 && (r.Failed? <==> schedule(old(clock)).Error?)
    {
      var e := schedule(clock);
      clock := clock + 1;
      if e.Error? { faulted := true; return Failed; }
      var m := Moved(if e.Bytes? then e.k else 0, to - from);
      var path := open[fd].path;
      stored := stored[path := stored[path] + buf[from..from + m]];
      return Ready(m);
    }

    /** The size of an open file; both seeks leave the offset at the start. */
    method FileSize(fd: int) returns (size: nat)
      requires Valid() && fd in open && open[fd].Reading?
      modifies this`open
      ensures Valid() && open == old(open)[fd := Reading(old(open[fd].bytes), 0)]
      ensures size == |open[fd].bytes| < TWO_63
    {
      size := |open[fd].bytes|;
      open := open[fd := Reading(open[fd].bytes, 0)];
    }

    method Close(fd: int)
      requires Valid() && fd in open
      modifies this`open
      ensures Valid() && open == old(open) - {fd}
    {
      open := open - {fd};
    }
  }
}
