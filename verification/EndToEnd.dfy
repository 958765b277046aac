/** What a whole request comes to, over every schedule of reads, writes and suspensions. */
module EndToEnd {
  import opened Types
  import opened Helpers
  import opened StrView
  import opened Parser
  import opened Kernel
  import opened Response
  import opened Server
  import opened Log

  /** A connection on which nothing has happened yet, and a record for it that may hold anything. */
  ghost predicate NewConnection(s: State, os: Os, l: Logger)
    reads os, l
  {
    && os.Valid() && os.early <= MAX_HEADER && State.Client(os)
    && os.open == map[] && os.drawn == 0 && os.sent == "" && !os.faulted
    && s.buf != s.resBuf && s.buf.Length == s.resBuf.Length == MAX_HEADER
    && l.Valid() && l.buf != s.buf && l.buf != s.resBuf
  }

  /** Partial reads, partial writes and EAGAIN in any order, with room for the header. */
  ghost predicate Ordinary(os: Os) {
    State.Calm(os) && os.Early() <= 2048
  }

  /** The request is whole, and a call more is made than EAGAIN can suspend. */
  ghost predicate CallsSuffice(os: Os, from: nat, calls: nat, most: nat) {
    State.FullySent(os) && AtMostAgains(os.schedule, from, most) && most < calls
  }

  /** Serves one connection: the record is prepared, and then called again after every
      suspension, at most `calls` times.  When the client sends a whole request and the schedule
      reports EAGAIN at most `most` times, one call more than that finishes the request, and under
      an ordinary schedule it is then answered. */
  method Serve(s: State, os: Os, l: Logger, calls: nat, ghost most: nat) returns (done: bool)
    requires NewConnection(s, os, l)
    modifies s, s.buf, s.resBuf, os, l`head, l`written, l.buf
    ensures l.Valid()
    ensures !done ==> s.Inv(os) && l.Contents() == old(l.Contents())
    ensures done ==> s.Done(os)
    ensures done ==>
              l.Contents() == old(l.Contents())
                + LogRecord(Text(os.stream, s.verbView), Text(os.stream, s.uri), s.status, Text(os.stream, s.id))
    ensures CallsSuffice(os, old(os.clock), calls, most) ==> done
    ensures State.Calm(os) ==> !os.faulted
    ensures done && Ordinary(os) ==> !s.crowded && Answered(s, os)
    ensures done && Ordinary(os) ==>
              Framed(os.sent, s.verb, s.status, FileOf(Text(os.stream, s.uri), os.getLookup))
    ensures s.Rush(os) && (done ==> s.stage == FINISHED)
  {
    done := CallUntilDone(s, os, l, calls, most);
    hide State.Done, State.Inv, State.Rush, CallsSuffice, Answered, Framed, LogRecord, Text;
    if done && Ordinary(os) {
      RoomEnough(s, os);
      AnswersOutcome(s, os);
      AnswerFramed(s, os);
    }
  }

  method CallUntilDone(s: State, os: Os, l: Logger, calls: nat, ghost most: nat) returns (done: bool)
    requires NewConnection(s, os, l)
    modifies s, s.buf, s.resBuf, os, l`head, l`written, l.buf
    ensures l.Valid()
    ensures !done ==> s.Inv(os) && l.Contents() == old(l.Contents())
    ensures done ==> s.Done(os)
    ensures done ==>
              l.Contents() == old(l.Contents())
                + LogRecord(Text(os.stream, s.verbView), Text(os.stream, s.uri), s.status, Text(os.stream, s.id))
    ensures CallsSuffice(os, old(os.clock), calls, most) ==> done
    ensures State.Calm(os) ==> !os.faulted
    ensures s.Rush(os) && (done ==> s.stage == FINISHED)
  {
    hide State.HeaderInv, LogRecord, Text, State.Rush, State.FullySent, State.Calm;
    s.InitParserState(os);
    ghost var log, start := l.Contents(), os.clock;
    done := false;
    var n := 0;
    while n < calls && !done
      invariant n <= calls && l.Valid() && s.Rush(os) && (done ==> s.stage == FINISHED)
      invariant !done ==> s.Inv(os) && l.Contents() == log
      invariant done ==> s.Done(os)
      invariant done ==>
                  l.Contents() == log
                    + LogRecord(Text(os.stream, s.verbView), Text(os.stream, s.uri), s.status, Text(os.stream, s.id))
      invariant os.clock >= start && (!done && State.FullySent(os) ==> n <= Agains(os.schedule, start, os.clock))
      invariant State.Calm(os) ==> !os.faulted
    {
      ghost var from := os.clock;
      done := s.HandleRequest(os, l);
      if !done && State.FullySent(os) {
        AgainsGrow(os.schedule, start, from, os.clock - 1);
      }
      n := n + 1;
    }
  }

  ghost predicate AtMostAgains(schedule: nat -> Event, from: nat, most: nat) {
    forall c: nat :: Agains(schedule, from, c) <= most
  }

  /** When no more than 2048 bytes can arrive before the blank line is consumed, no header reader
      is ever short of room, whatever the schedule. */
  lemma RoomEnough(s: State, os: Os)
    requires s.Done(os) && os.Early() <= 2048
    ensures !s.crowded
  {
  }

  /** The bytes sent are the response to the one-shot parse of the client's bytes: header, then
      body, nothing lost, repeated or reordered; and a PUT has stored what it announced. */
  ghost predicate Answered(s: State, os: Os)
    reads s, os
  {
    var o := Outcome(os.stream, s.bufEnd, os.getLookup, os.putLookup);
    && os.sent == FullResponse(o.verb, o.status, FileOf(o.uri, os.getLookup))
    && s.status == o.status && s.verb == o.verb
    && Text(os.stream, s.verbView) == o.verbText && Text(os.stream, s.uri) == o.uri && Text(os.stream, s.id) == o.id
    && (o.stage == READ_BODY && !IsError(o.status) ==>
          && PathOf(o.uri) in os.stored
          && os.drawn == o.pos + o.bodyLen <= |os.stream|
          && os.stored[PathOf(o.uri)] == os.stream[o.pos..o.pos + o.bodyLen])
  }

  /** The number on the length line of the answer is the number of bytes behind its blank line, but
      for HEAD with 200, which announces the file. */
  lemma AnswerFramed(s: State, os: Os)
    requires s.Done(os) && !os.faulted && !s.crowded
    requires forall path :: os.getLookup(path).Content? ==> |os.getLookup(path).bytes| < TWO_63
    ensures Framed(os.sent, s.verb, s.status, FileOf(Text(os.stream, s.uri), os.getLookup))
  {
    hide Outcome, FullResponse, Framed;
    FullResponseFramed(s.verb, s.status, FileOf(Text(os.stream, s.uri), os.getLookup));
  }

  lemma AnswersOutcome(s: State, os: Os)
    requires s.Done(os) && !os.faulted && !s.crowded
    ensures Answered(s, os)
  {
    hide Outcome, FullResponse;
  }

  /** A GET for a file that can be opened: whenever it is done, the 200 header with the length of
      the file and then the whole file were sent. */
  method GetEndToEnd(s: State, os: Os, l: Logger, calls: nat, ghost most: nat) returns (done: bool)
    requires NewConnection(s, os, l) && Ordinary(os)
    requires var p := OneShot(os.stream, START, os.getLookup);
             p.stage == BUILD_HEADER && p.verb == GET && p.status == OK
    modifies s, s.buf, s.resBuf, os, l`head, l`written, l.buf
    ensures CallsSuffice(os, old(os.clock), calls, most) ==> done
    ensures var p := OneShot(os.stream, START, os.getLookup);
            var file := FileOf(p.uri, os.getLookup);
            done ==> os.sent == StatusLine(OK) + CRLF + (LengthLine(|file|) + CRLF + CRLF) + file
  {
    done := Serve(s, os, l, calls, most);
    hide OneShot, State.Done, State.Inv, State.Rush, CallsSuffice, LogRecord, FileOf;
    GetResponse(FileOf(OneShot(os.stream, START, os.getLookup).uri, os.getLookup));
  }

  lemma GetResponse(file: string)
    ensures FullResponse(GET, OK, file) == StatusLine(OK) + CRLF + (LengthLine(|file|) + CRLF + CRLF) + file
  {
    hide StatusLine, LengthLine;
    assert Head(GET, OK, |file|) + "" == Head(GET, OK, |file|);
  }

  /** A PUT whose file can be opened, when no more of the body can arrive with the header than was
      announced: whenever it is done, the file is exactly the announced body, and nothing behind
      it was drawn. */
  method PutEndToEnd(s: State, os: Os, l: Logger, calls: nat, ghost most: nat) returns (done: bool)
    requires NewConnection(s, os, l) && Ordinary(os)
    requires var p := OneShot(os.stream, START, os.getLookup);
             && p.stage == READ_BODY && |p.uri| < MAX_PATH && os.Early() <= p.pos + p.bodyLen
             && (os.putLookup(PathOf(p.uri)).Truncates? || os.putLookup(PathOf(p.uri)).Creates?)
    modifies s, s.buf, s.resBuf, os, l`head, l`written, l.buf
    ensures CallsSuffice(os, old(os.clock), calls, most) ==> done
    ensures var p := OneShot(os.stream, START, os.getLookup);
            done ==>
              && s.status == (if os.putLookup(PathOf(p.uri)).Creates? then CREATED else OK)
              && os.sent == FullResponse(p.verb, s.status, "")
              && PathOf(p.uri) in os.stored
              && os.drawn == p.pos + p.bodyLen <= |os.stream|
              && os.stored[PathOf(p.uri)] == os.stream[p.pos..p.pos + p.bodyLen]
  {
    hide OneShot, FullResponse, State.Done, State.Inv, State.Rush, CallsSuffice, LogRecord, NewConnection, Ordinary;
    hide Answered, Text;
    done := Serve(s, os, l, calls, most);
    if done {
      PutAnswered(s, os);
    }
  }

  lemma PutAnswered(s: State, os: Os)
    requires s.Done(os) && Answered(s, os)
    requires var p := OneShot(os.stream, START, os.getLookup);
             && p.stage == READ_BODY && |p.uri| < MAX_PATH && os.Early() <= p.pos + p.bodyLen
             && (os.putLookup(PathOf(p.uri)).Truncates? || os.putLookup(PathOf(p.uri)).Creates?)
    ensures var p := OneShot(os.stream, START, os.getLookup);
            && s.status == (if os.putLookup(PathOf(p.uri)).Creates? then CREATED else OK)
            && os.sent == FullResponse(p.verb, s.status, "")
            && PathOf(p.uri) in os.stored
            && os.drawn == p.pos + p.bodyLen <= |os.stream|
            && os.stored[PathOf(p.uri)] == os.stream[p.pos..p.pos + p.bodyLen]
  {
    NoExcess(s, os);
    hide OneShot, FullResponse, State.Done;
    var p := OneShot(os.stream, START, os.getLookup);
    PutResponse(os, p, s.status, FileOf(p.uri, os.getLookup));
  }

  /** What a PUT is answered does not depend on any file. */
  lemma PutResponse(os: Os, p: Parse, status: Status, file: string)
    requires p == OneShot(os.stream, START, os.getLookup) && p.stage == READ_BODY
    ensures p.verb == PUT && FullResponse(p.verb, status, file) == FullResponse(p.verb, status, "")
  {
    BodyMeansPut(os.stream, START, os.getLookup);
  }

  lemma {:induction false} BodyMeansPut(stream: string, p: Parse, get: string -> GetAnswer)
    requires p.pos <= |stream| && (p.stage == READ_BODY ==> p.verb == PUT)
    ensures OneShot(stream, p, get).stage == READ_BODY ==> OneShot(stream, p, get).verb == PUT
    decreases |stream| - p.pos
  {
    hide NextLine, Advance, OneShot;
    if InHeader(p.stage) && NextLine(stream, p.pos).Some? {
      var e := NextLine(stream, p.pos).value;
      AdvanceToBody(p, stream[p.pos..e - 2], e, get);
      OneShotStep(stream, p, e, get);
      BodyMeansPut(stream, Advance(p, stream[p.pos..e - 2], e, get), get);
    } else {
      OneShotStops(stream, p, get);
    }
  }

  lemma OneShotStops(stream: string, p: Parse, get: string -> GetAnswer)
    requires p.pos <= |stream| && (!InHeader(p.stage) || NextLine(stream, p.pos).None?)
    ensures OneShot(stream, p, get) == p
  {
  }

  lemma AdvanceToBody(p: Parse, line: string, e: nat, get: string -> GetAnswer)
    requires InHeader(p.stage)
    ensures var q := Advance(p, line, e, get); q.stage == READ_BODY ==> q.verb == PUT
  {
    ParseRlOutcome(p, line);
    ParseHfOutcome(p, line);
    hide ParseRl, ParseHf;
  }

  /** When no more than the announced body can arrive early, no run has an excess. */
  lemma NoExcess(s: State, os: Os)
    requires s.Done(os)
    requires var p := OneShot(os.stream, START, os.getLookup); os.Early() <= p.pos + p.bodyLen
    ensures var p := OneShot(os.stream, START, os.getLookup); s.bufEnd <= p.pos + p.bodyLen
  {
    hide OneShot;
  }

  /** Two connections on which the same bytes arrive, in front of the same files, under any two
      ordinary schedules: once both are done they cannot be told apart.  Same method, path, id and
      status, same bytes sent, same file stored, same log record. */
  method ScheduleIndependence(s: State, os: Os, l: Logger, t: State, ot: Os, m: Logger, calls: nat, ghost most: nat)
    returns (done: bool)
    requires NewConnection(s, os, l) && Ordinary(os) && NewConnection(t, ot, m) && Ordinary(ot)
    requires {s, s.buf, s.resBuf, os, l, l.buf} !! {t, t.buf, t.resBuf, ot, m, m.buf}
    requires os.stream == ot.stream && os.getLookup == ot.getLookup && os.putLookup == ot.putLookup
    requires var p := OneShot(os.stream, START, os.getLookup);
             p.stage == READ_BODY ==> os.Early() <= p.pos + p.bodyLen && ot.Early() <= p.pos + p.bodyLen
    modifies s, s.buf, s.resBuf, os, l`head, l`written, l.buf, t, t.buf, t.resBuf, ot, m`head, m`written, m.buf
    ensures CallsSuffice(os, old(os.clock), calls, most) && CallsSuffice(ot, old(ot.clock), calls, most) ==> done
    ensures done ==> Alike(s, os, t, ot)
    ensures done && old(l.Contents()) == old(m.Contents()) ==> l.Valid() && m.Valid() && l.Contents() == m.Contents()
  {
    hide State.Done, State.Inv, State.Rush, CallsSuffice, LogRecord, Answered, OneShot, Text;
    hide NewConnection;
    var one := Serve(s, os, l, calls, most);
    var two := Serve(t, ot, m, calls, most);
    done := one && two;
    if done {
      if OneShot(os.stream, START, os.getLookup).stage == READ_BODY {
        NoExcess(s, os);
        NoExcess(t, ot);
      }
      SameAnswer(s, os, t, ot);
    }
  }

  ghost predicate Alike(s: State, os: Os, t: State, ot: Os)
    reads s, os, t, ot
  {
    && s.verb == t.verb && s.status == t.status
    && Text(os.stream, s.verbView) == Text(ot.stream, t.verbView)
    && Text(os.stream, s.uri) == Text(ot.stream, t.uri)
    && Text(os.stream, s.id) == Text(ot.stream, t.id)
    && os.sent == ot.sent
    && var o := Outcome(os.stream, s.bufEnd, os.getLookup, os.putLookup);
       (o.stage == READ_BODY && !IsError(o.status) ==>
          && PathOf(o.uri) in os.stored && PathOf(o.uri) in ot.stored
          && os.stored[PathOf(o.uri)] == ot.stored[PathOf(o.uri)])
  }

  /** Even with an excess, if it comes about in both runs or in neither. */
  lemma SameAnswer(s: State, os: Os, t: State, ot: Os)
    requires s.Done(os) && !os.faulted && !s.crowded
    requires t.Done(ot) && !ot.faulted && !t.crowded
    requires os.stream == ot.stream && os.getLookup == ot.getLookup && os.putLookup == ot.putLookup
    requires var p := OneShot(os.stream, START, os.getLookup);
             p.stage == READ_BODY ==> (s.bufEnd > p.pos + p.bodyLen <==> t.bufEnd > p.pos + p.bodyLen)
    ensures Alike(s, os, t, ot)
  {
    hide OneShot, FullResponse, PutStatus;
    assert Outcome(os.stream, s.bufEnd, os.getLookup, os.putLookup)
        == Outcome(ot.stream, t.bufEnd, ot.getLookup, ot.putLookup);
    AnswersOutcome(s, os);
    AnswersOutcome(t, ot);
  }

  // ---------------------------------------------------------------- an eager schedule

  /** A run in which every read and write moves as much as it can, in one call. */
  method RunEagerly(stream: string, early: nat, get: string -> GetAnswer, put: string -> PutAnswer)
    returns (s: State, os: Os, done: bool)
    requires early <= MAX_HEADER && State.Sendable(stream)
    requires forall path :: get(path).Content? ==> |get(path).bytes| < TWO_63
    ensures os.stream == stream && os.early == early && os.getLookup == get && os.putLookup == put
    ensures State.Eager(os) && s.Rush(os)
    ensures done ==> s.stage == FINISHED && s.Done(os)
    ensures State.FullySent(os) ==> done
  {
    s := new State();
    os := new Os(stream, early, _ => Bytes(MAX_HEADER), get, put);
    var l := new Logger(4096);
    hide State.Rush, State.Done, State.FullySent, State.Inv, State.Sendable, Os.Valid, LogRecord, Text;
    Unhindered(os.schedule, os.clock);
    done := Serve(s, os, l, 1, 0);
  }

  lemma Unhindered(schedule: nat -> Event, from: nat)
    requires forall c: nat :: schedule(c) == Bytes(MAX_HEADER)
    ensures AtMostAgains(schedule, from, 0)
  {
    forall c: nat ensures Agains(schedule, from, c) <= 0 {
      NeverAgain(schedule, from, c);
    }
  }

  lemma {:induction false} NeverAgain(schedule: nat -> Event, from: nat, end: nat)
    requires forall c: nat :: !schedule(c).Again?
    ensures Agains(schedule, from, end) == 0
    decreases end
  {
    if from < end {
      NeverAgain(schedule, from, end - 1);
    }
  }

  // ---------------------------------------------------------------- where the code falls short

  /** The answer to a request whose reader was short of room: 400 if that was before the blank
      line was consumed, and then possibly no answer at all; otherwise what the one-shot parse
      says, with 400 for 200.  So the error that was set is lost exactly when a PUT goes on to
      create its file. */
  lemma CrowdedAnswer(s: State, os: Os)
    requires s.Done(os) && !os.faulted && s.crowded
    ensures var o := Outcome(os.stream, s.bufEnd, os.getLookup, os.putLookup);
            && s.status == (if !s.headerDone || o.status == OK then BAD_REQUEST else o.status)
            && (!IsError(s.status) <==> s.headerDone && o.status == CREATED)
            && (s.headerDone && o.stage == READ_BODY && !IsError(o.status) ==> s.Stored(os, o))
    ensures os.sent == FullResponse(s.verb, s.status, "") || (!s.headerDone && os.sent == "")
  {
    hide Outcome;
    NoContent(s.verb, s.status, FileOf(Text(os.stream, s.uri), os.getLookup));
  }

  lemma NoContent(verb: Method, status: Status, content: string)
    requires status != OK
    ensures FullResponse(verb, status, content) == FullResponse(verb, status, "")
  {
  }

  /** A request that should be answered with 200 is answered so exactly when no header reader
      was short of room, and with 400, if at all, when one was. */
  lemma CrowdedExactly(s: State, os: Os)
    requires s.Done(os) && !os.faulted
    requires Outcome(os.stream, s.bufEnd, os.getLookup, os.putLookup).status == OK
    ensures s.status == OK <==> !s.crowded
    ensures s.crowded ==> s.status == BAD_REQUEST
  {
    hide Outcome;
  }

  /** Room runs short in some run of a whole request that should be accepted, as soon as more than
      2048 bytes can arrive before the blank line is consumed: the bound of RoomEnough is exact. */
  method CrowdedRun(stream: string, early: nat, get: string -> GetAnswer, put: string -> PutAnswer)
    returns (s: State, os: Os)
    requires early <= MAX_HEADER && State.Sendable(stream) && State.WholeRequest(stream, early, get)
    requires OneShot(stream, START, get).status == OK && Min(early, |stream|) > 2048
    requires forall path :: get(path).Content? ==> |get(path).bytes| < TWO_63
    ensures os.stream == stream && os.early == early && os.getLookup == get && os.putLookup == put
    ensures s.Done(os) && !os.faulted && s.crowded && s.status != OK
  {
    hide OneShot, State.Sendable;
    var done;
    s, os, done := RunEagerly(stream, early, get, put);
    FirstAccepted(os);
  }

  lemma FirstAccepted(os: Os)
    requires State.FullySent(os) && OneShot(os.stream, START, os.getLookup).status == OK
    ensures State.AcceptedLine(os).Some?
  {
    var e := NextLine(os.stream, 0).value;
    ParseRlOutcome(START, os.stream[..e - 2]);
    assert os.stream[0..e - 2] == os.stream[..e - 2];
    hide NextLine, ParseRl;
  }

  /** A header of a request line and a blank line that together fill the request buffer. */
  function FullHeader(m: string): string
    requires |m| <= 8
  {
    RenderHeader(m, "/a", 1, MAX_HEADER - 16 - |m|, [])
  }

  lemma FullHeaderRead(m: string, get: string -> GetAnswer)
    requires m == "GET" || m == "PUT"
    ensures var stream := FullHeader(m);
            var p := LineParsed(m, "/a", 1, MAX_HEADER - 16 - |m|);
            && p.pos == MAX_HEADER - 2 && Advance(START, stream[..MAX_HEADER - 4], MAX_HEADER - 2, get) == p
            && OneShot(stream, START, get) == EndOfHeader(p.(pos := MAX_HEADER), get)
  {
    hide OneShot, NextLine, ParseRl, RenderHeader, RenderLine, EndOfHeader, Advance, State.Sendable;
    FullHeaderLines(m);
    FullHeaderPath(m);
    BareHeader(m, "/a", 1, MAX_HEADER - 16 - |m|, get);
  }

  /** A header without fields. */
  lemma BareHeader(m: string, uri: string, a: nat, b: nat, get: string -> GetAnswer)
    requires a >= 1 && MethodOf(m) != UNKNOWN && ValidPath(uri)
    ensures var line, p := RenderLine(m, uri, a, b), LineParsed(m, uri, a, b);
            && Advance(START, line, |line| + 2, get) == p
            && OneShot(RenderHeader(m, uri, a, b, []), START, get) == EndOfHeader(p.(pos := p.pos + 2), get)
  {
    hide OneShot, ParseRl, RenderHeader, RenderLine, EndOfHeader, MethodOf, ValidPath;
    ParseRendered(START, m, uri, a, b);
    RenderParse(m, uri, a, b, [], "", get);
    assert RenderHeader(m, uri, a, b, []) + "" == RenderHeader(m, uri, a, b, []);
  }

  lemma FullHeaderPath(m: string)
    requires m == "GET" || m == "PUT"
    ensures MethodOf(m) != UNKNOWN && ValidPath("/a")
  {
  }

  lemma FullHeaderLines(m: string)
    requires m == "GET" || m == "PUT"
    ensures var stream, text := FullHeader(m), RenderLine(m, "/a", 1, MAX_HEADER - 16 - |m|);
            && |stream| == MAX_HEADER && |text| == MAX_HEADER - 4 && stream[..MAX_HEADER - 4] == text
            && NextLine(stream, 0) == Some(MAX_HEADER - 2) && NextLine(stream, MAX_HEADER - 2) == Some(MAX_HEADER)
            && State.Sendable(stream)
  {
    var b := MAX_HEADER - 16 - |m|;
    var text := RenderLine(m, "/a", 1, b);
    assert |text| == MAX_HEADER - 4 && text[0] == m[0];
    RenderedLineOneLine(m, "/a", 1, b);
    ParseRendered(START, m, "/a", 1, b);
    hide NextLine, ParseRl, RenderLine;
    TwoLines(text);
  }

  lemma TwoLines(text: string)
    requires '\r' !in text && |text| == MAX_HEADER - 4
    ensures var stream := text + CRLF + RenderLines([]) + CRLF;
            && |stream| == MAX_HEADER && stream[..MAX_HEADER - 4] == text
            && NextLine(stream, 0) == Some(MAX_HEADER - 2) && NextLine(stream, MAX_HEADER - 2) == Some(MAX_HEADER)
  {
    var stream := text + CRLF + RenderLines([]) + CRLF;
    assert stream == text + CRLF + "" + CRLF;
    PlainIsOneLine(text);
    PlainIsOneLine("");
    LineAt(stream, 0, text);
    LineAt(stream, MAX_HEADER - 2, "");
  }

  /** A GET whose file can be opened, in a header that fills the buffer: the one-shot parse says
      200, the answer is 400. */
  method CrowdedGet(get: string -> GetAnswer, put: string -> PutAnswer) returns (s: State, os: Os)
    requires get("a").Content? && forall path :: get(path).Content? ==> |get(path).bytes| < TWO_63
    ensures os.stream == FullHeader("GET") && s.Done(os) && !os.faulted
    ensures Outcome(os.stream, s.bufEnd, get, put).status == OK
    ensures s.status == BAD_REQUEST && os.sent == FullResponse(GET, BAD_REQUEST, "")
  {
    hide OneShot, State.Sendable, FullHeader, Advance, NextLine, FullResponse, RenderHeader;
    FullHeaderLines("GET");
    FullHeaderRead("GET", get);
    var done;
    s, os, done := RunEagerly(FullHeader("GET"), MAX_HEADER, get, put);
    CrowdedAnswer(s, os);
  }

  /** A PUT with an empty body in such a header: the error that was set turns into 201 when the
      file is created, and an existing file is emptied although the answer is 400. */
  method CrowdedPut(get: string -> GetAnswer, put: string -> PutAnswer) returns (s: State, os: Os)
    requires put("a").Creates? || put("a").Truncates?
    requires forall path :: get(path).Content? ==> |get(path).bytes| < TWO_63
    ensures os.stream == FullHeader("PUT") && s.Done(os) && !os.faulted && s.crowded
    ensures s.status == if put("a").Creates? then CREATED else BAD_REQUEST
    ensures "a" in os.stored && os.stored["a"] == "" && os.sent == FullResponse(PUT, s.status, "")
  {
    hide OneShot, State.Sendable, FullHeader, Advance, NextLine, FullResponse, RenderHeader;
    FullHeaderLines("PUT");
    FullHeaderRead("PUT", get);
    assert PathOf("/a") == "a";
    var done;
    s, os, done := RunEagerly(FullHeader("PUT"), MAX_HEADER, get, put);
    CrowdedAnswer(s, os);
  }

  /** The line that starts at byte `from` has been received once `end` bytes have. */
  predicate LineBy(stream: string, from: nat, end: nat)
    requires from <= |stream|
  {
    NextLine(stream, from).Some? && NextLine(stream, from).value <= end
  }

  /** Where the reads of one call of read_hf leave off.  On entry the buffer ends at `entry`; every
      read asks for the room there was then, is offered the next number of ks, and puts its bytes
      behind the present end, as long as the line is incomplete and more has arrived. */
  function HfEnd(stream: string, from: nat, entry: nat, end: nat, arrived: nat, ks: seq<nat>): nat
    requires from <= |stream| && entry < MAX_HEADER
    decreases |ks|
  {
    if ks == [] || end >= arrived || LineBy(stream, from, end) then end
    else
      HfEnd(stream, from, entry, end + Moved(ks[0], Min(MAX_HEADER - entry, arrived - end)), arrived, ks[1..])
  }

  lemma {:induction false} HfEndBound(stream: string, from: nat, entry: nat, end: nat, arrived: nat, ks: seq<nat>)
    requires from <= |stream| && entry < MAX_HEADER && end <= arrived
    ensures HfEnd(stream, from, entry, end, arrived, ks) <= arrived
    decreases |ks|
  {
    if ks != [] && end < arrived && !LineBy(stream, from, end) {
      HfEndBound(stream, from, entry, end + Moved(ks[0], Min(MAX_HEADER - entry, arrived - end)), arrived, ks[1..]);
    }
  }

  /** The reads of one call of read_hf stay inside the buffer, however they are cut, exactly when no
      more than 2050 bytes have arrived or the first byte completes the line. */
  lemma StaleRoomExactly(stream: string, from: nat, entry: nat, arrived: nat)
    requires from <= entry <= arrived <= |stream| && entry + 2 <= MAX_HEADER && !LineBy(stream, from, entry)
    ensures (forall ks: seq<nat> :: HfEnd(stream, from, entry, entry, arrived, ks) <= MAX_HEADER)
            <==> arrived <= MAX_HEADER || LineBy(stream, from, entry + 1)
  {
    if arrived <= MAX_HEADER {
      forall ks: seq<nat> ensures HfEnd(stream, from, entry, entry, arrived, ks) <= MAX_HEADER {
        HfEndBound(stream, from, entry, entry, arrived, ks);
      }
    } else if LineBy(stream, from, entry + 1) {
      forall ks: seq<nat> ensures HfEnd(stream, from, entry, entry, arrived, ks) <= MAX_HEADER {
        OneRead(stream, from, entry, arrived, ks);
      }
    } else {
      SecondRead(stream, from, entry, arrived);
    }
  }

  lemma OneRead(stream: string, from: nat, entry: nat, arrived: nat, ks: seq<nat>)
    requires from <= entry <= arrived <= |stream| && entry < MAX_HEADER && LineBy(stream, from, entry + 1)
    ensures HfEnd(stream, from, entry, entry, arrived, ks) <= MAX_HEADER
  {
    hide NextLine;
  }

  /** One byte first, and then as many as the stale room allows. */
  lemma SecondRead(stream: string, from: nat, entry: nat, arrived: nat)
    requires from <= entry && MAX_HEADER < arrived <= |stream| && entry + 2 <= MAX_HEADER
    requires !LineBy(stream, from, entry + 1)
    ensures HfEnd(stream, from, entry, entry, arrived, [1, MAX_HEADER]) > MAX_HEADER
  {
    hide NextLine;
    var ks: seq<nat> := [1, MAX_HEADER];
    assert Moved(ks[0], Min(MAX_HEADER - entry, arrived - entry)) == 1;
    assert HfEnd(stream, from, entry, entry, arrived, ks) == HfEnd(stream, from, entry, entry + 1, arrived, ks[1..]);
    assert ks[1..] == [MAX_HEADER] && ks[1..][1..] == [];
    var last := entry + 1 + Moved(MAX_HEADER, Min(MAX_HEADER - entry, arrived - entry - 1));
    assert HfEnd(stream, from, entry, entry + 1, arrived, ks[1..]) == HfEnd(stream, from, entry, last, arrived, []);
  }

  /** An accepted request line, and a field of 2051 bytes that no line end follows. */
  function LongField(): string {
    RenderLine("GET", "/a", 1, 0) + CRLF + Spaces(MAX_HEADER + 1)
  }

  /** The request line arrives first; then one byte, and then the rest: the reads end outside the
      buffer. */
  lemma LongFieldOverruns(get: string -> GetAnswer)
    ensures var stream, e := LongField(), |RenderLine("GET", "/a", 1, 0)| + 2;
            && e <= |stream| && NextLine(stream, 0) == Some(e)
            && Advance(START, stream[..e - 2], e, get).stage == HEADER_FIELDS
            && HfEnd(stream, e, e, e, |stream|, [1, MAX_HEADER]) > MAX_HEADER
  {
    var line := RenderLine("GET", "/a", 1, 0);
    assert |line| == 15;
    PlainGetLine();
    hide RenderLine, ParseRl, NextLine, HfEnd, MethodOf;
    RenderedLineOneLine("GET", "/a", 1, 0);
    ParseRendered(START, "GET", "/a", 1, 0);
    LongLine(line, Spaces(MAX_HEADER + 1));
    SecondRead(LongField(), |line| + 2, |line| + 2, |LongField()|);
  }

  lemma PlainGetLine()
    ensures MethodOf("GET") == GET && ValidPath("/a")
  {
  }

  lemma LongLine(line: string, field: string)
    requires '\r' !in line && '\n' !in field
    ensures var stream := line + CRLF + field;
            && stream[..|line|] == line && NextLine(stream, 0) == Some(|line| + 2)
            && NextLine(stream, |line| + 2) == None
  {
    var stream := line + CRLF + field;
    PlainIsOneLine(line);
    LineAt(stream, 0, line);
    assert stream[|line| + 2..] == field;
    NoLineEnd(stream, |line| + 2);
  }

  /** Bytes that hold no line feed hold no line. */
  lemma NoLineEnd(stream: string, from: nat)
    requires from <= |stream| && '\n' !in stream[from..]
    ensures NextLine(stream, from) == None
  {
    forall k | from <= k < |stream| ensures stream[k] != '\n' {
      assert stream[from..][k - from] == stream[k];
    }
    CrlfMeaning(stream, from, |stream|);
  }

  /** When the file of a PUT can be opened, it succeeds exactly if no more of the body has arrived
      with the header than was announced; otherwise the answer is 500, never the 400 that the
      check of lines 364-368 is there for. */
  lemma ExcessExactly(s: State, os: Os)
    requires s.Done(os) && !os.faulted && !s.crowded
    requires var p := OneShot(os.stream, START, os.getLookup);
             && p.stage == READ_BODY && |p.uri| < MAX_PATH
             && (os.putLookup(PathOf(p.uri)).Truncates? || os.putLookup(PathOf(p.uri)).Creates?)
    ensures var p := OneShot(os.stream, START, os.getLookup);
            !IsError(s.status) <==> s.bufEnd <= p.pos + p.bodyLen
    ensures IsError(s.status) ==> s.status == INTERNAL_ERROR && os.sent == FullResponse(s.verb, INTERNAL_ERROR, "")
  {
    hide OneShot;
    NoContent(s.verb, INTERNAL_ERROR, FileOf(Text(os.stream, s.uri), os.getLookup));
  }

  /** Such an answer comes about in some run as soon as more than the announced body can arrive
      before the blank line is consumed. */
  method ExcessRun(stream: string, early: nat, get: string -> GetAnswer, put: string -> PutAnswer)
    returns (s: State, os: Os)
    requires State.Sendable(stream) && State.WholeRequest(stream, early, get) && Min(early, |stream|) <= MAX_HEADER - 2
    requires early <= MAX_HEADER && forall path :: get(path).Content? ==> |get(path).bytes| < TWO_63
    requires var p := OneShot(stream, START, get);
             && p.stage == READ_BODY && |p.uri| < MAX_PATH && Min(early, |stream|) > p.pos + p.bodyLen
             && (put(PathOf(p.uri)).Truncates? || put(PathOf(p.uri)).Creates?)
    ensures os.stream == stream && os.early == early && os.getLookup == get && os.putLookup == put
    ensures s.Done(os) && !os.faulted
    ensures s.status == INTERNAL_ERROR && os.sent == FullResponse(s.verb, INTERNAL_ERROR, "")
  {
    hide OneShot, State.Sendable, FullResponse;
    var done;
    s, os, done := RunEagerly(stream, early, get, put);
    ExcessExactly(s, os);
  }

  const SHORT_LENGTH: seq<string> := ["Content-Length: 5"]

  /** A request announcing five bytes that sends six of them together with its header. */
  function TooLongPut(): string {
    RenderHeader("PUT", "/test", 1, 0, SHORT_LENGTH) + "123456"
  }

  /** It announces five of its last six bytes. */
  lemma TooLongPutRead(get: string -> GetAnswer)
    ensures var p := OneShot(TooLongPut(), START, get);
            && p.stage == READ_BODY && p.bodyLen == 5 && p.uri == "/test" && p.pos + 6 == |TooLongPut()|
  {
    hide OneShot, RenderHeader, RenderLine, ParseHf;
    PlainIsOneLine("Content-Length: 5");
    RenderParse("PUT", "/test", 1, 0, SHORT_LENGTH, "123456", get);
    var line := LineParsed("PUT", "/test", 1, 0);
    FiveBytes(line);
    var q := LineDone(line, SHORT_LENGTH[0]);
    assert ApplyLines(line, SHORT_LENGTH) == ApplyLines(q, []) == q;
  }

  lemma TooLongPutLines()
    ensures |TooLongPut()| < 100 && State.Sendable(TooLongPut())
  {
    var line := RenderLine("PUT", "/test", 1, 0);
    var s := TooLongPut();
    assert RenderLines(SHORT_LENGTH[1..]) == "";
    assert s == line + CRLF + (RenderLines(SHORT_LENGTH) + CRLF + "123456");
    RenderedLineOneLine("PUT", "/test", 1, 0);
    LineAt(s, 0, line);
    ParseRendered(START, "PUT", "/test", 1, 0);
  }

  /** When it arrives at once, the answer is 500. */
  method TooLongPutFails(get: string -> GetAnswer, put: string -> PutAnswer) returns (s: State, os: Os)
    requires put("test").Truncates? || put("test").Creates?
    requires forall path :: get(path).Content? ==> |get(path).bytes| < TWO_63
    ensures os.stream == TooLongPut() && s.Done(os) && !os.faulted
    ensures s.status == INTERNAL_ERROR && os.sent == FullResponse(s.verb, INTERNAL_ERROR, "")
  {
    hide OneShot, State.Sendable, TooLongPut;
    TooLongPutLines();
    TooLongPutRead(get);
    assert PathOf("/test") == "test";
    s, os := ExcessRun(TooLongPut(), |TooLongPut()|, get, put);
  }

  lemma FiveBytes(p: Parse)
    ensures ParseHf(p, "Content-Length: 5") == p.(bodyLen := 5)
  {
    assert " " + "5" + "" == " 5";
    TrimIs(" ", "5", "");
    assert Dec(5) == "5";
    PrintParse(5);
    TrimDigits("5");
    var f := Field("Content-Length", " 5");
    ParseHfRendered(p, f);
    assert RenderField(f) == "Content-Length: 5";
  }
}
