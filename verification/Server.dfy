/** The resumable request state machine of server.c. */
module Server {
  import opened Types
  import opened Helpers
  import opened StrView
  import opened Parser
  import opened Kernel
  import opened Response
  import opened Log

  const SUPPORTED_METHODS: seq<string> := ["GET", "PUT", "HEAD"]

  /** The status with which PUT answers: the file name is too long, the file cannot be opened,
      more of the body has already arrived than was announced, or the file was stored. */
  function PutStatus(uri: string, excess: bool, lookup: string -> PutAnswer): Status {
    if |uri| >= MAX_PATH then INTERNAL_ERROR
    else
      match lookup(PathOf(uri))
      case Refused => FORBIDDEN
      case CreateFails => FORBIDDEN
      case Truncates => if excess then INTERNAL_ERROR else OK
      case Creates => if excess then INTERNAL_ERROR else CREATED
  }

  /** The parse a request ends with when nothing fails.  `received` is the number of bytes that
      had arrived when the header ended. */
  function Outcome(stream: string, received: nat, get: string -> GetAnswer, put: string -> PutAnswer): Parse {
    var p := OneShot(stream, START, get);
    if p.stage == READ_BODY then p.(status := PutStatus(p.uri, received > p.pos + p.bodyLen, put)) else p
  }

  /** The file a GET or HEAD answers from. */
  function FileOf(uri: string, get: string -> GetAnswer): string {
    if get(PathOf(uri)).Content? then get(PathOf(uri)).bytes else ""
  }

  /** How far a stage is from the end. */
  function Remaining(stage: Stage): nat {
    match stage
    case REQUEST_LINE => 5
    case HEADER_FIELDS => 4
    case READ_BODY => 3
    case BUILD_HEADER => 2
    case SEND_HEADER => 2
    case SEND_RES => 1
    case READ_FILE => 1
    case FINISHED => 0
  }

  class State {
    const buf: array<char>
    var bufEnd: nat
    var parsedEnd: nat
    var bodyLen: nat
    var id: View
    var uri: View
    var verbView: View
    var verb: Method
    var putFd: int
    var getFd: int

    const resBuf: array<char>
    var resEnd: nat
    var flushed: nat

    var status: Status
    var stage: Stage

    // history, for the proofs only
    ghost var crowded: bool          // a header reader found less than two bytes of room
    ghost var headerDone: bool       // the blank line was consumed
    ghost var bodyAt: nat            // where the body starts in the stream
    ghost var contentLength: nat     // body_len when the header ended

    // ------------------------------------------------------------ invariants

    ghost predicate Shape(os: Os)
      reads this`bufEnd, this`parsedEnd, this`bodyLen, this`resEnd, this`flushed
      reads this`id, this`uri, this`verbView, this`crowded
      reads os`drawn, os`nextFd, os`open, os`stored
    {
      && os.Valid()
      && buf != resBuf && buf.Length == resBuf.Length == MAX_HEADER
      && parsedEnd <= bufEnd <= os.drawn && bufEnd <= os.early <= MAX_HEADER
      && flushed <= resEnd <= MAX_HEADER && bodyLen < TWO_63
      && InView(id) && InView(uri) && InView(verbView)
      && (crowded ==> bufEnd > MAX_HEADER - 2)
    }

    ghost predicate InView(v: View)
      reads this`bufEnd
    {
      v.View? ==> v.start <= v.end <= bufEnd
    }

    /** The header part of the state, its views read out of s. */
    ghost function Abs(s: string): Parse
      reads this`parsedEnd, this`stage, this`status, this`verb, this`verbView, this`uri, this`id, this`bodyLen
    {
      Parse(parsedEnd, stage, status, verb, Text(s, verbView), Text(s, uri), Text(s, id), bodyLen)
    }

    /** What the client sent is in the buffer, from its first byte on. */
    ghost predicate Received(os: Os)
      reads this`bufEnd, buf
    {
      bufEnd <= buf.Length && bufEnd <= |os.stream| && buf[..bufEnd] == os.stream[..bufEnd]
    }

    /** Conditions on the client: the request line does not begin with a space, and the method
        and path fit the log buffer. */
    static ghost predicate Client(os: Os) {
      Sendable(os.stream)
    }

    static ghost predicate Sendable(stream: string) {
      && (stream != "" ==> stream[0] != ' ')
      && (NextLine(stream, 0).Some? ==>
            var q := ParseRl(START, stream[..NextLine(stream, 0).value - 2]);
            LineFitsLog(q.verbText, q.uri))
    }

    static ghost predicate LineFitsLog(verbText: string, uri: string) {
      |verbText| + |uri| + 5 <= MAX_LOG
    }

    ghost predicate Untouched(os: Os)
      reads this`putFd, this`getFd, this`resEnd, this`flushed, os`open, os`sent
    {
      putFd == -1 && getFd == -1 && os.open == map[] && os.sent == "" && resEnd == flushed == 0
    }

    ghost predicate LineRead(os: Os)
      reads this`verbView, this`uri
    {
      LineFitsLog(Text(os.stream, verbView), Text(os.stream, uri))
    }

    /** What every header stage relies on, whatever has been parsed. */
    ghost predicate HeaderBase(os: Os)
      reads this`bufEnd, this`parsedEnd, this`bodyLen, this`resEnd, this`flushed, this`id, this`uri
      reads this`verbView, this`crowded, this`headerDone, this`putFd, this`getFd, buf
      reads os`drawn, os`nextFd, os`open, os`stored, os`sent
    {
      && Shape(os) && Received(os) && Client(os) && Untouched(os) && LineRead(os) && os.drawn == bufEnd
      && !headerDone
    }

    /** The rest of the one-shot parse, from here, is the one-shot parse from the start. */
    ghost predicate OnTrack(os: Os)
      reads this`parsedEnd, this`stage, this`status, this`verb, this`verbView, this`uri, this`id, this`bodyLen
    {
      parsedEnd <= |os.stream|
      && OneShot(os.stream, Abs(os.stream), os.getLookup) == OneShot(os.stream, START, os.getLookup)
    }

    /** The header part of the state is the one-shot parse of the stream. */
    ghost predicate Parsed(os: Os)
      reads this`parsedEnd, this`stage, this`status, this`verb, this`verbView, this`uri, this`id, this`bodyLen
    {
      Abs(os.stream) == OneShot(os.stream, START, os.getLookup)
    }

    /** The next line of the stream has not been received whole. */
    ghost predicate LineMissing(os: Os)
      reads this`parsedEnd, this`bufEnd
    {
      parsedEnd <= |os.stream| &&
      (NextLine(os.stream, parsedEnd) == None || NextLine(os.stream, parsedEnd).value > bufEnd)
    }

    /** The client sends a whole request: all of its header can arrive before the blank line is
        consumed, and its body is there. */
    static ghost predicate FullySent(os: Os) {
      WholeRequest(os.stream, os.early, os.getLookup)
    }

    static ghost predicate WholeRequest(stream: string, early: nat, get: string -> GetAnswer) {
      var p := OneShot(stream, START, get);
      !InHeader(p.stage) && p.pos <= early && (p.stage == READ_BODY ==> p.pos + p.bodyLen <= |stream|)
    }

    /** Everything that can have arrived was drawn, and the client has not sent a whole request. */
    ghost predicate Starved(os: Os)
      reads this`stage, os`drawn
    {
      && os.drawn == (if stage == READ_BODY then |os.stream| else os.Early())
      && stage != SEND_RES && !FullySent(os)
    }

    /** Reads and writes move any part of the bytes or report EAGAIN, in any order; none of them fails
        and the client does not hang up. */
    static ghost predicate Calm(os: Os) {
      forall c: nat :: os.schedule(c).Bytes? || os.schedule(c).Again?
    }

    static lemma EagerIsCalm(os: Os)
      ensures Eager(os) ==> Calm(os)
    {
    }

    /** What a failure before the answer comes to: after an error 500 is answered next, after the end
        of the connection nothing is. */
    ghost predicate FailedEarly(os: Os)
      reads this`stage, this`status, os`clock
    {
      os.clock > 0 &&
      if os.schedule(os.clock - 1).Error? then stage == BUILD_HEADER && status == INTERNAL_ERROR
      else os.schedule(os.clock - 1).End? && stage == FINISHED
    }

    /** Every read and write moves as much as it can. */
    static ghost predicate Eager(os: Os) {
      forall c: nat :: os.schedule(c).Bytes? && os.schedule(c).k >= MAX_HEADER
    }

    ghost predicate HeaderInv(os: Os)
      reads this, buf, os
    {
      && HeaderBase(os) && !crowded && !os.faulted && OnTrack(os)
      && (stage == REQUEST_LINE ==> Abs(os.stream) == START)
      && (stage == HEADER_FIELDS ==>
            status == OK && verb in {GET, PUT, HEAD} && ValidPath(Text(os.stream, uri)))
    }

    /** The descriptors held are exactly the files the kernel has open for this request. */
    ghost predicate Files(os: Os)
      reads this`putFd, this`getFd, this`uri, os`open
    {
      FilesIn(os, os.open)
    }

    ghost predicate FilesIn(os: Os, open: map<int, OpenFile>)
      reads this`putFd, this`getFd, this`uri
    {
      && -1 <= putFd && -1 <= getFd && (putFd == -1 || getFd == -1)
      && open.Keys == (if putFd == -1 then {} else {putFd}) + (if getFd == -1 then {} else {getFd})
      && (getFd != -1 ==>
            && open[getFd].Reading?
            && os.getLookup(PathOf(Text(os.stream, uri))).Content?
            && open[getFd].bytes == FileOf(Text(os.stream, uri), os.getLookup))
      && (putFd != -1 ==> open[putFd] == Writing(PathOf(Text(os.stream, uri))))
    }

    /** Moving the offset of the file that is read changes nothing else. */
    lemma OffsetMoved(os: Os, was: map<int, OpenFile>)
      requires FilesIn(os, was) && getFd != -1
      requires os.open.Keys == was.Keys
      requires os.open[getFd].Reading? && os.open[getFd].bytes == was[getFd].bytes
      ensures Files(os)
    {
      hide Text, PathOf, FileOf;
    }

    /** A successful PUT has stored the announced part of the body, and drawn nothing else. */
    ghost predicate Stored(os: Os, o: Parse)
      reads os`drawn, os`stored
    {
      && PathOf(o.uri) in os.stored
      && o.pos + o.bodyLen == os.drawn <= |os.stream|
      && os.stored[PathOf(o.uri)] == os.stream[o.pos..o.pos + o.bodyLen]
    }

    /** What becomes of a status when the reader of the blank line was short of room: the error
        it set stays unless a later status replaces it. */
    ghost function Masked(st: Status): Status
      reads this`crowded
    {
      if crowded && st == OK then BAD_REQUEST else st
    }

    /** The request state is what the one-shot parse of the whole stream leads to. */
    ghost predicate Agreed(os: Os)
      reads this`bufEnd, this`status, this`verb, this`verbView, this`uri, this`id, this`crowded, os`drawn, os`stored
    {
      var o := Outcome(os.stream, bufEnd, os.getLookup, os.putLookup);
      && verb == o.verb && status == Masked(o.status)
      && Text(os.stream, verbView) == o.verbText && Text(os.stream, uri) == o.uri && Text(os.stream, id) == o.id
      && (o.stage == READ_BODY && !IsError(o.status) ==> Stored(os, o))
    }

    /** Unless something failed, the status is the one-shot parse's, masked when the reader of the
        blank line was short of room, and 400 when a reader was so before the blank line. */
    ghost predicate Settled(os: Os)
      reads this`bufEnd, this`status, this`verb, this`verbView, this`uri, this`id, this`crowded, this`headerDone
      reads os`drawn, os`stored, os`faulted
    {
      && (!os.faulted ==> if crowded && !headerDone then status == BAD_REQUEST else Agreed(os))
      && (crowded ==> status != OK)
      && (!os.faulted && (verb == NONE_YET || verb == UNKNOWN) ==> IsError(status))
    }

    /** What every stage behind the header and the body relies on. */
    ghost predicate Answerable(os: Os)
      reads this`bufEnd, this`parsedEnd, this`bodyLen, this`resEnd, this`flushed, this`id, this`uri
      reads this`verbView, this`crowded, this`headerDone, this`putFd, this`getFd, this`verb, this`status, buf
      reads os`drawn, os`nextFd, os`open, os`stored, os`faulted
    {
      && Shape(os) && Received(os) && Files(os) && LineRead(os) && Settled(os)
      && (verb == NONE_YET || verb == UNKNOWN ==> IsError(status))
      && (AnnouncesFile(verb, status) ==> getFd != -1)
    }

    ghost predicate BuildInv(os: Os)
      reads this, os, buf
    {
      Answerable(os) && os.sent == "" && resEnd == flushed == 0
    }

    ghost predicate BodyInv(os: Os)
      reads this, buf, os
    {
      BodyBase(os) && (putFd != -1 ==> bufEnd <= bodyAt + contentLength)
    }

    /** The body stage, before it is known that no more of the body has arrived than was announced. */
    ghost predicate BodyBase(os: Os)
      reads this, buf, os
    {
      BodyRest(os) && Shape(os) && BodyProgress(os) && BodyAgreed(os)
    }

    /** The part of the body stage that reading and storing leave alone. */
    ghost predicate BodyRest(os: Os)
      reads this`bufEnd, this`putFd, this`getFd, this`verb, this`verbView, this`uri, this`resEnd, this`flushed, buf
      reads os`open, os`sent
    {
      && Received(os) && Files(os) && LineRead(os)
      && os.sent == "" && resEnd == flushed == 0
      && verb == PUT && getFd == -1 && ValidPath(Text(os.stream, uri))
    }

    /** Where in the stream the next body byte to be stored is. */
    ghost function BodyPos(): int
      reads this`bodyAt, this`contentLength, this`bodyLen
    {
      bodyAt + contentLength - bodyLen
    }

    /** The file holds exactly the body bytes from bodyAt up to BodyPos. */
    ghost predicate FileHolds(os: Os)
      reads this`bodyLen, this`uri, this`bodyAt, this`contentLength, os`stored
    {
      var path := PathOf(Text(os.stream, uri));
      && path in os.stored && bodyAt <= BodyPos() <= |os.stream|
      && os.stored[path] == os.stream[bodyAt..BodyPos()]
    }

    /** The stored file is the body received so far: the first contentLength - bodyLen bytes. */
    ghost predicate BodyProgress(os: Os)
      reads this`bufEnd, this`parsedEnd, this`bodyLen, this`putFd, this`uri, this`bodyAt, this`contentLength
      reads os`drawn, os`stored
    {
      && bodyAt <= bufEnd && bodyLen <= contentLength < TWO_63
      && (if parsedEnd == bufEnd then os.drawn == BodyPos()
          else parsedEnd == bodyAt == BodyPos() && os.drawn == bufEnd)
      && (if putFd == -1 then parsedEnd == bodyAt == BodyPos() && os.drawn == bufEnd
          else FileHolds(os))
    }

    /** The header was read as the one-shot parse reads it, up to the status. */
    ghost predicate ReadAsPut(os: Os)
      reads this`verbView, this`uri, this`id, this`bodyAt, this`contentLength
    {
      OneShot(os.stream, START, os.getLookup) ==
        Parse(bodyAt, READ_BODY, OK, PUT, Text(os.stream, verbView), Text(os.stream, uri),
              Text(os.stream, id), contentLength)
    }

    /** The status so far, which a reader short of room may have masked. */
    ghost predicate BodyAgreed(os: Os)
      reads this`status, this`putFd, this`verbView, this`uri, this`id, this`bodyAt, this`contentLength
      reads this`crowded, this`headerDone
    {
      var st := if putFd == -1 then OK else PutStatus(Text(os.stream, uri), false, os.putLookup);
      status == Masked(st) && !IsError(st) && ReadAsPut(os) && headerDone
    }

    /** The part of the file that has left for the response buffer. */
    ghost function Streamed(os: Os): string
      reads this`verb, this`status, this`getFd, os`open
    {
      if verb == GET && status == OK && getFd in os.open && os.open[getFd].Reading?
         && os.open[getFd].offset <= |os.open[getFd].bytes| then
        os.open[getFd].bytes[..os.open[getFd].offset]
      else ""
    }

    ghost function Built(os: Os): string
      reads this`verb, this`status, this`uri
    {
      HeaderBytes(verb, status, |FileOf(Text(os.stream, uri), os.getLookup)|)
    }

    ghost function Whole(os: Os): string
      reads this`verb, this`status, this`uri
    {
      FullResponse(verb, status, FileOf(Text(os.stream, uri), os.getLookup))
    }

    /** Sent bytes followed by buffered bytes are the header followed by the file so far. */
    ghost predicate SendInv(os: Os)
      reads this, os, buf, resBuf
    {
      && Answerable(os) && InTransit(os)
      && (stage == READ_FILE ==> verb == GET && status == OK && flushed == resEnd == 0)
    }

    /** Nothing is lost, repeated or reordered on the way to the client. */
    ghost predicate InTransit(os: Os)
      reads this`verb, this`status, this`uri, this`getFd, this`flushed, this`resEnd, os`open, os`sent, resBuf
    {
      flushed <= resEnd <= resBuf.Length && os.sent + resBuf[flushed..resEnd] == Built(os) + Streamed(os)
    }

    ghost predicate FinishInv(os: Os)
      reads this, os, buf
    {
      && Shape(os) && Received(os) && Files(os) && LineRead(os) && Settled(os) && Delivered(os)
    }

    /** What was sent is a prefix of the whole response, and all of it unless something failed or
        a reader without any room took the empty read for the end of the connection. */
    ghost predicate Delivered(os: Os)
      reads this`verb, this`status, this`uri, this`crowded, this`headerDone, os`sent, os`faulted
    {
      && os.sent <= Whole(os)
      && (os.faulted || os.sent == Whole(os) || (crowded && !headerDone && os.sent == ""))
    }

    ghost predicate Inv(os: Os)
      reads this, os, buf, resBuf
    {
      match stage
      case REQUEST_LINE => HeaderInv(os)
      case HEADER_FIELDS => HeaderInv(os)
      case READ_BODY => BodyInv(os)
      case BUILD_HEADER => BuildInv(os)
      case SEND_HEADER => false
      case READ_FILE => SendInv(os)
      case SEND_RES => SendInv(os)
      case FINISHED => FinishInv(os)
    }

    lemma TextAgrees(s: string, t: string, v: View)
      requires bufEnd <= |s| && bufEnd <= |t| && s[..bufEnd] == t[..bufEnd] && InView(v)
      ensures Text(s, v) == Text(t, v)
    {
      if !IsEmptyView(v) {
        assert s[v.start..v.end] == s[..bufEnd][v.start..v.end];
        assert t[v.start..v.end] == t[..bufEnd][v.start..v.end];
      }
    }

    lemma AbsAgrees(s: string, t: string)
      requires bufEnd <= |s| && bufEnd <= |t| && s[..bufEnd] == t[..bufEnd]
      requires InView(id) && InView(uri) && InView(verbView)
      ensures Abs(s) == Abs(t)
    {
      TextAgrees(s, t, id);
      TextAgrees(s, t, uri);
      TextAgrees(s, t, verbView);
    }

    // ------------------------------------------------------------ the request line

    method ValidateMethod(view: View) returns (ok: bool)
      requires view.View? && view.start <= view.end <= buf.Length
      ensures ok <==> |Text(buf[..], view)| <= 8 && AllAlpha(Text(buf[..], view))
    {
      ghost var text := Text(buf[..], view);
      if view.end - view.start > 8 {
        return false;
      }
      var i := view.start;
      while i != view.end
        invariant view.start <= i <= view.end
        invariant AllAlpha(buf[view.start..i])
      {
        if !IsAlpha(buf[i]) {
          assert text[i - view.start] == buf[i];
          return false;
        }
        assert buf[view.start..i + 1] == buf[view.start..i] + [buf[i]];
        i := i + 1;
      }
      return true;
    }

    method ValidatePath(view: View) returns (ok: bool)
      requires view.View? && view.start <= view.end <= buf.Length
      ensures ok <==> ValidPath(Text(buf[..], view))
    {
      ghost var text := Text(buf[..], view);
      if view.end - view.start < 2 || buf[view.start] != '/' {
        return false;
      }
      var i := view.start + 1;
      while i != view.end
        invariant view.start < i <= view.end
        invariant forall k | view.start < k < i :: PathChar(buf[k])
      {
        if !PathChar(buf[i]) {
          assert text[i - view.start] == buf[i];
          return false;
        }
        i := i + 1;
      }
      assert forall k | 1 <= k < |text| :: text[k] == buf[view.start + k];
      return true;
    }

    method ValidateProto(view: View) returns (ok: bool)
      requires view.View? && view.start <= view.end <= buf.Length
      ensures ok <==> Text(buf[..], view) == "HTTP/1.1"
    {
      if view.end - view.start < 8 {
        return false;
      }
      hide Compare;
      var c := CompareVs(buf, view, "HTTP/1.1");
      return c == 0;
    }

    method GetMethod(view: View) returns (m: Method, st: Status)
      requires view.View? && view.start <= view.end <= buf.Length
      ensures m == MethodOf(Text(buf[..], view))
      ensures m != UNKNOWN ==> st == status
      ensures m == UNKNOWN ==> st == Unrecognised(Text(buf[..], view))
    {
      hide Compare;
      var i := 0;
      while i < |SUPPORTED_METHODS|
        invariant 0 <= i <= |SUPPORTED_METHODS|
        invariant forall k | 0 <= k < i :: Text(buf[..], view) != SUPPORTED_METHODS[k]
      {
        var c := CompareVs(buf, view, SUPPORTED_METHODS[i]);
        if c == 0 {
          return if i == 0 then GET else if i == 1 then PUT else HEAD, status;
        }
        i := i + 1;
      }
      assert SUPPORTED_METHODS[0] == "GET" && SUPPORTED_METHODS[1] == "PUT" && SUPPORTED_METHODS[2] == "HEAD";
      var named := ValidateMethod(view);
      return UNKNOWN, if named then NOT_IMPLEMENTED else BAD_REQUEST;
    }

    /** Finds the next space in buf[from..end] and trims the word it ends. */
    method TakeWord(from: nat, end: nat, ghost lo: nat) returns (view: View, next: Option<nat>)
      requires lo <= from <= end < bufEnd <= buf.Length
      requires buf[lo] != ' ' && buf[end] == '\r'
      ensures var rest := buf[from..end]; var j := IndexOf(rest, ' ');
              if j == |rest| then next == None
              else next == Some(from + j + 1) && view.View? && InView(view) && Text(buf[..], view) == rest[..j]
    {
      WordEnd(buf[..], from, end);
      hide ScanAt, IndexOf, Trim;
      var found := FindDelim(buf, from, end, " ");
      if found == None {
        return Invalid, None;
      }
      view := TrimWhitespace(buf, View(from, found.value), lo, end);
      return view, found;
    }

    /** The scan for a space ends just behind the first word, which the trim then gives back. */
    static lemma WordEnd(s: string, from: nat, end: nat)
      requires from <= end <= |s|
      ensures var rest, found := s[from..end], ScanAt(s, from, end, " ", 0);
              var j := IndexOf(rest, ' ');
              if j == |rest| then found == None
              else found == Some(from + j + 1) && from + j + 1 <= end && Trim(s[from..from + j + 1]) == rest[..j]
    {
      ScanByte(s, from, end, ' ');
      hide ScanAt, Trim;
      var rest := s[from..end];
      var j := IndexOf(rest, ' ');
      if j < |rest| {
        TrimUpTo(rest[..j]);
        assert s[from..from + j + 1] == rest[..j] + " ";
      }
    }

    /** Parses the request line buf[..end], which a carriage return follows. */
    method ParseRequestLine(end: nat)
      requires end < bufEnd <= buf.Length && buf[end] == '\r' && buf[0] != ' '
      requires InView(id) && InView(uri) && InView(verbView)
      modifies this`verbView, this`verb, this`uri, this`status, this`stage
      ensures InView(uri) && InView(verbView)
      ensures Abs(buf[..]) == ParseRl(old(Abs(buf[..])), buf[..end])
    {
      hide ParseTarget, MethodOf, Unrecognised, IndexOf, Text;
      ghost var p, line := Abs(buf[..]), buf[..end];
      assert buf[0..end] == line;
      var word, methodEnd := TakeWord(0, end, 0);
      if methodEnd == None {
        status, stage := BAD_REQUEST, BUILD_HEADER;
        return;
      }
      var from := methodEnd.value;
      assert buf[from..end] == line[from..];
      verbView := word;
      verb, status := GetMethod(verbView);
      if verb == UNKNOWN {
        stage := BUILD_HEADER;
        assert Abs(buf[..]) == Fail(p.(verbText := line[..from - 1], verb := UNKNOWN), Unrecognised(line[..from - 1]));
        return;
      }
      assert Abs(buf[..]) == p.(verbText := line[..from - 1], verb := MethodOf(line[..from - 1]));
      ParsePathAndProtocol(from, end);
    }

    /** The second half of parse_rl. */
    method ParsePathAndProtocol(from: nat, end: nat)
      requires from <= end < bufEnd <= buf.Length && buf[end] == '\r' && buf[0] != ' '
      requires InView(id) && InView(uri) && InView(verbView)
      modifies this`uri, this`status, this`stage
      ensures InView(uri)
      ensures Abs(buf[..]) == ParseTarget(old(Abs(buf[..])), buf[from..end])
    {
      hide ValidPath, Trim, IndexOf, Text, Compare;
      ghost var q, rest := Abs(buf[..]), buf[from..end];
      var path, uriEnd := TakeWord(from, end, 0);
      if uriEnd == None {
        status, stage := BAD_REQUEST, BUILD_HEADER;
        return;
      }
      uri := path;
      var ue := uriEnd.value;
      ghost var u := q.(uri := rest[..ue - from - 1]);
      assert Abs(buf[..]) == u;
      assert buf[ue..end] == rest[ue - from..];
      var ok := CheckPathAndProtocol(ue, end);
      if !ok {
        status, stage := BAD_REQUEST, BUILD_HEADER;
        return;
      }
      stage := HEADER_FIELDS;
    }

    /** The two checks that end parse_rl. */
    method CheckPathAndProtocol(from: nat, end: nat) returns (ok: bool)
      requires from <= end < bufEnd <= buf.Length && buf[end] == '\r' && buf[0] != ' '
      requires uri.View? && InView(uri)
      ensures ok <==> ValidPath(Text(buf[..], uri)) && Trim(buf[from..end]) == "HTTP/1.1"
    {
      hide ValidPath, Trim, Compare;
      ok := ValidatePath(uri);
      if !ok {
        return false;
      }
      var proto := TrimWhitespace(buf, View(from, end), 0, end);
      assert Text(buf[..], View(from, end)) == buf[from..end];
      ok := ValidateProto(proto);
    }

    /** A word without spaces survives trimming together with the space behind it. */
    static lemma TrimUpTo(w: string)
      requires ' ' !in w
      ensures Trim(w + " ") == w
    {
      if w != "" {
        assert w[0] in w && w[|w| - 1] in w;
      }
      TrimIs("", w, " ");
      assert "" + w + " " == w + " ";
    }

    // ------------------------------------------------------------ reading header lines

    /** One read of a header reader: at most `space` bytes behind bufEnd. */
    method ReadMore(os: Os, space: nat) returns (r: IoResult)
      requires HeaderBase(os) && space <= MAX_HEADER
      modifies this`bufEnd, buf, os`clock, os`drawn, os`faulted
      ensures HeaderBase(os) && os.drawn >= old(os.drawn) && bufEnd >= old(bufEnd)
      ensures r.Ready? ==> os.drawn > old(os.drawn)
      ensures r.Ready? || r.WouldBlock? ==> os.faulted == old(os.faulted)
      ensures old(os.faulted) || r.Failed? || (r.Closed? && space > 0) ==> os.faulted
      ensures !r.Ready? ==> bufEnd == old(bufEnd) && buf[..] == old(buf[..])
      ensures os.clock == old(os.clock) + 1
      ensures space > 0 && r.Failed? ==> os.schedule(old(os.clock)).Error?
      ensures space > 0 && r.Closed? ==> os.schedule(old(os.clock)).End?
      ensures space == 0 ==> r.Closed? && os.faulted == old(os.faulted)
      ensures r.WouldBlock? ==> os.Blocked(old(os.clock)) || os.drawn == os.Early()
      ensures Calm(os) ==> os.faulted == old(os.faulted)
      ensures os.schedule(old(os.clock)).Bytes? && space > 0 && old(bufEnd) < os.Early() ==>
                bufEnd == old(bufEnd) + Moved(os.schedule(old(os.clock)).k, Min(space, os.Early() - old(bufEnd)))
      ensures Eager(os) && space > 0 && old(bufEnd) + space >= os.Early() ==> bufEnd == os.Early()
    {
      hide Client, LineRead, Untouched;
      ghost var s, n := os.stream, bufEnd;
      r := os.ReadSocket(buf, bufEnd, space, Min(os.early, |os.stream|));
      if r.Ready? {
        bufEnd := bufEnd + r.n;
        assert buf[..bufEnd] == buf[..n] + buf[n..bufEnd];
        assert s[..bufEnd] == s[..n] + s[n..bufEnd];
      } else {
        assert buf[..bufEnd] == buf[..][..bufEnd];
      }
    }

    /** A line found in the buffer is the next line of the stream. */
    lemma LineInStream(os: Os, e: nat)
      requires Received(os) && parsedEnd <= bufEnd && ScanAt(buf[..], parsedEnd, bufEnd, CRLF, 0) == Some(e)
      ensures parsedEnd + 2 <= e <= bufEnd && NextLine(os.stream, parsedEnd) == Some(e)
      ensures buf[parsedEnd..e - 2] == os.stream[parsedEnd..e - 2]
      ensures buf[e - 2] == '\r'
    {
      var s, t := buf[..], os.stream;
      assert s[parsedEnd..bufEnd] == buf[..bufEnd][parsedEnd..];
      assert t[parsedEnd..bufEnd] == t[..bufEnd][parsedEnd..];
      ScanExtends(s, t, parsedEnd, bufEnd, |t|, CRLF, 0);
      CrlfBytes(s, parsedEnd, bufEnd);
      assert buf[parsedEnd..e - 2] == buf[..bufEnd][parsedEnd..e - 2];
      assert t[parsedEnd..e - 2] == t[..bufEnd][parsedEnd..e - 2];
    }

    /** No line found in the buffer: none has been received. */
    lemma NoLineInStream(os: Os)
      requires Received(os) && parsedEnd <= bufEnd && ScanAt(buf[..], parsedEnd, bufEnd, CRLF, 0) == None
      ensures LineMissing(os)
    {
      var s, t := buf[..], os.stream;
      assert s[parsedEnd..bufEnd] == buf[..bufEnd][parsedEnd..];
      assert t[parsedEnd..bufEnd] == t[..bufEnd][parsedEnd..];
      ScanBeyond(s, t, parsedEnd, bufEnd, |t|, CRLF, 0);
    }

    /** Whoever waits for a line after everything has arrived waits for an unfinished request. */
    lemma Unsent(os: Os, p: Parse)
      requires p.pos == parsedEnd <= |os.stream| && InHeader(p.stage) && LineMissing(os)
      requires OneShot(os.stream, p, os.getLookup) == OneShot(os.stream, START, os.getLookup)
      requires os.drawn == bufEnd == os.Early() && stage != READ_BODY && stage != SEND_RES
      ensures Starved(os)
    {
    }

    /** A header reader gives up: the error response is built next. */
    lemma GaveUp(os: Os)
      requires HeaderBase(os) && stage == BUILD_HEADER && IsError(status)
      requires os.faulted || (crowded && status == BAD_REQUEST)
      ensures BuildInv(os)
    {
      hide Client, LineRead, Agreed;
    }

    /** A header reader finds the connection closed: nothing is sent. */
    lemma HungUp(os: Os)
      requires HeaderBase(os) && stage == FINISHED
      requires if crowded then status == BAD_REQUEST else os.faulted
      ensures FinishInv(os)
    {
      hide Client, LineRead, Agreed, Whole;
    }

    method ReadRl(os: Os) returns (proceed: bool)
      requires stage == REQUEST_LINE && HeaderInv(os)
      modifies this`bufEnd, this`stage, this`status, this`crowded, this`verbView, this`verb, this`uri, this`parsedEnd
      modifies buf, os`clock, os`drawn, os`faulted
      ensures Inv(os) && os.drawn >= old(os.drawn) && os.clock >= old(os.clock)
      ensures !proceed ==> stage == REQUEST_LINE && (os.Blocked(old(os.clock)) || Starved(os))
      ensures proceed ==> stage in {HEADER_FIELDS, BUILD_HEADER, FINISHED}
      ensures crowded <==> proceed && stage == BUILD_HEADER && parsedEnd == 0 && !os.faulted
      ensures crowded ==> IsError(status) && LineMissing(os) && bufEnd > MAX_HEADER - 2
      ensures !headerDone
      ensures proceed && !crowded && !os.faulted ==> FirstLineParsed(os)
      ensures !InHeader(stage) && !crowded && !os.faulted ==> Parsed(os)
      ensures StaysEager(os, old(bufEnd)) && (Calm(os) ==> !os.faulted)
      ensures os.faulted ==> FailedEarly(os)
    {
      hide HeaderBase, ScanAt, Abs, HeaderInv, BuildInv, FinishInv, BodyInv, SendInv, Received, Starved,
        LineMissing, Parsed, Eager, Calm, OnTrack, FailedEarly;
      var lineEnd;
      lineEnd, proceed := AwaitRequestLine(os);
      if lineEnd.Some? {
        BaseFacts(os);
        StillStarting(os);
        LineInStream(os, lineEnd.value);
        RequestLineStep(os, lineEnd.value);
      }
    }

    /** The request line was parsed as the one-shot parse reads it. */
    ghost predicate FirstLineParsed(os: Os)
      reads this`parsedEnd, this`stage, this`status, this`verb, this`verbView, this`uri, this`id, this`bodyLen
    {
      && NextLine(os.stream, 0) == Some(parsedEnd)
      && Abs(os.stream) == Advance(START, os.stream[..parsedEnd - 2], parsedEnd, os.getLookup)
    }

    /** Under an eager schedule the first read draws everything that can have arrived. */
    ghost predicate StaysEager(os: Os, before: nat)
      reads this`bufEnd, this`stage, os`faulted
    {
      Eager(os) && (before == 0 || before == os.Early()) ==>
        !os.faulted && (bufEnd == os.Early() || (bufEnd == 0 && stage == REQUEST_LINE))
    }

    /** The read loop of read_rl: a line, or the reason to leave without one. */
    method AwaitRequestLine(os: Os) returns (lineEnd: Option<nat>, proceed: bool)
      requires stage == REQUEST_LINE && HeaderInv(os)
      modifies this`bufEnd, this`stage, this`status, this`crowded, buf, os`clock, os`drawn, os`faulted
      ensures os.drawn >= old(os.drawn) && os.clock >= old(os.clock)
      ensures lineEnd.Some? ==>
                && proceed && HeaderBase(os) && !crowded && !os.faulted && OnTrack(os) && Abs(os.stream) == START
                && parsedEnd == 0 && !headerDone && lineEnd == ScanAt(buf[..], parsedEnd, bufEnd, CRLF, 0)
      ensures lineEnd.None? ==> Inv(os) && !headerDone
      ensures !proceed ==> stage == REQUEST_LINE && (os.Blocked(old(os.clock)) || Starved(os))
      ensures proceed && lineEnd.None? ==> if os.faulted then stage in {BUILD_HEADER, FINISHED} else crowded
      ensures crowded ==>
                && proceed && lineEnd.None? && stage == BUILD_HEADER && parsedEnd == 0 && !os.faulted
                && IsError(status) && LineMissing(os) && bufEnd > MAX_HEADER - 2
      ensures StaysEager(os, old(bufEnd)) && (Calm(os) ==> !os.faulted)
      ensures os.faulted ==> FailedEarly(os)
    {
      EagerIsCalm(os);
      hide Calm;
      hide HeaderBase, OnTrack, ScanAt, Abs, HeaderInv, BuildInv, FinishInv, BodyInv, SendInv, Received, Starved,
        LineMissing;
      HeaderFacts(os);
      StartFacts(os);
      lineEnd := FindDelim(buf, parsedEnd, bufEnd, CRLF);
      while lineEnd == None
        invariant stage == REQUEST_LINE && HeaderBase(os) && !crowded && os.drawn >= old(os.drawn)
        invariant OnTrack(os) && Abs(os.stream) == START && parsedEnd == 0
        invariant parsedEnd <= bufEnd <= os.drawn <= |os.stream| && buf.Length == MAX_HEADER && bufEnd <= MAX_HEADER
        invariant lineEnd == ScanAt(buf[..], parsedEnd, bufEnd, CRLF, 0)
        invariant !os.faulted && os.clock >= old(os.clock) && StaysEager(os, old(bufEnd))
        decreases |os.stream| - os.drawn
      {
        assert LineMissing(os) by { BaseFacts(os); NoLineInStream(os); }
        var space := BufLeft(bufEnd, buf.Length);
        if space < 2 {
          status, stage := BAD_REQUEST, BUILD_HEADER;
          SetCrowded(os);
          GaveUp(os);
          return None, true;
        }
        var r := ReadMore(os, space);
        BaseFacts(os);
        match r
        case Ready(_) => lineEnd := FindDelim(buf, parsedEnd, bufEnd, CRLF);
        case WouldBlock => WaitAtStart(os, old(os.clock)); return None, false;
        case Closed => stage := FINISHED; HungUp(os); return None, true;
        case Failed => stage, status := BUILD_HEADER, INTERNAL_ERROR; GaveUp(os); return None, true;
      }
      return lineEnd, true;
    }

    /** History: this header reader found no room. */
    ghost method SetCrowded(os: Os)
      requires HeaderBase(os) && bufEnd > MAX_HEADER - 2
      modifies this`crowded
      ensures HeaderBase(os) && crowded
    {
      hide Received, Client, Untouched, LineRead, Os.Valid;
      crowded := true;
    }

    lemma StartFacts(os: Os)
      requires HeaderInv(os) && stage == REQUEST_LINE
      ensures HeaderBase(os) && OnTrack(os) && Abs(os.stream) == START && parsedEnd == 0
      ensures !crowded && !headerDone && !os.faulted
    {
    }

    lemma StillStarting(os: Os)
      requires HeaderBase(os) && !crowded && !os.faulted && OnTrack(os) && Abs(os.stream) == START
      ensures stage == REQUEST_LINE && HeaderInv(os)
    {
      hide HeaderBase, OnTrack;
    }

    /** Waiting for the request line, unless EAGAIN was reported, is waiting for the client. */
    lemma WaitAtStart(os: Os, from: nat)
      requires HeaderBase(os) && !crowded && !os.faulted && OnTrack(os) && Abs(os.stream) == START
      requires LineMissing(os) && (os.Blocked(from) || os.drawn == os.Early())
      ensures stage == REQUEST_LINE && HeaderInv(os) && (os.Blocked(from) || Starved(os))
    {
      StillStarting(os);
      hide HeaderInv, Received, LineMissing, Starved, Client, LineRead;
      if os.drawn == os.Early() {
        Unsent(os, START);
      }
    }

    /** The end of read_rl: the complete line buf[..e - 2] is parsed. */
    method RequestLineStep(os: Os, e: nat)
      requires stage == REQUEST_LINE && HeaderInv(os)
      requires 2 <= e <= bufEnd && NextLine(os.stream, 0) == Some(e) && buf[..e - 2] == os.stream[..e - 2]
      requires buf[e - 2] == '\r'
      modifies this`verbView, this`verb, this`uri, this`status, this`stage, this`parsedEnd
      ensures Inv(os) && stage in {HEADER_FIELDS, BUILD_HEADER} && parsedEnd == e
      ensures Abs(os.stream) == Advance(START, os.stream[..e - 2], e, os.getLookup)
      ensures stage == BUILD_HEADER ==> Parsed(os)
    {
      hide Client, LineRead, Untouched, ParseRl, OnTrack, Text, NextLine;
      ghost var s := os.stream;
      assert buf[0] == buf[..bufEnd][0] == s[..bufEnd][0] == s[0];
      assert s[0] != ' ' by { FirstByte(os); }
      assert buf[..][..bufEnd] == s[..bufEnd];
      AbsAgrees(buf[..], s);
      ParseRequestLine(e - 2);
      AbsAgrees(buf[..], s);
      parsedEnd := e;
      AfterRequestLine(os, e);
    }

    lemma FirstByte(os: Os)
      requires Client(os) && os.stream != ""
      ensures os.stream[0] != ' '
    {
    }

    lemma AfterRequestLine(os: Os, e: nat)
      requires Shape(os) && Received(os) && Client(os) && Untouched(os) && os.drawn == bufEnd
      requires !crowded && !headerDone && !os.faulted && NextLine(os.stream, 0) == Some(e)
      requires Abs(os.stream) == Advance(START, os.stream[..e - 2], e, os.getLookup)
      ensures Inv(os) && stage in {HEADER_FIELDS, BUILD_HEADER}
      ensures stage == BUILD_HEADER ==> Parsed(os)
    {
      var s := os.stream;
      var line := s[..e - 2];
      ParseRlOutcome(START, line);
      OneShotStep(s, START, e, os.getLookup);
      assert s[0..e - 2] == line;
      assert LineRead(os);
      OneShotFails(s, ParseRl(START, line).(pos := e), os.getLookup);
      hide ParseRl, NextLine, Client, LineRead, Text;
    }

    /** Parses the header field buf[start..end], which a carriage return follows.  Without a
        colon the C code goes on comparing a key whose end it never meets, which cannot equal
        either name, so nothing but the status and the stage changes. */
    method ParseHeaderField(start: nat, end: nat)
      requires start <= end < bufEnd <= buf.Length && buf[end] == '\r'
      requires InView(id) && InView(uri) && InView(verbView) && bodyLen < TWO_63
      modifies this`id, this`bodyLen, this`status, this`stage
      ensures InView(id) && bodyLen < TWO_63
      ensures Abs(buf[..]) == ParseHf(old(Abs(buf[..])), buf[start..end])
    {
      hide IndexOf, ApplyField, ScanAt;
      ghost var line := buf[start..end];
      var found := FindColon(start, end);
      if found == None {
        status, stage := BAD_REQUEST, BUILD_HEADER;
        return;
      }
      SetField(View(start, found.value - 1), View(found.value, end));
    }

    method FindColon(start: nat, end: nat) returns (r: Option<nat>)
      requires start <= end < bufEnd <= buf.Length
      ensures var line := buf[start..end]; var k := IndexOf(line, ':');
              if k == |line| then r == None
              else
                && r == Some(start + k + 1) && r.value <= end && buf[r.value - 1] == ':'
                && Text(buf[..], View(start, r.value - 1)) == line[..k]
                && Text(buf[..], View(r.value, end)) == line[k + 1..]
    {
      ghost var s := buf[..];
      ScanByte(s, start, end, ':');
      hide IndexOf, ScanAt;
      r := FindDelim(buf, start, end, ":");
      if r.Some? {
        assert s[start..end][..r.value - 1 - start] == s[start..r.value - 1];
        assert s[start..end][r.value - start..] == s[r.value..end];
      }
    }

    /** The second half of parse_hf: the two names the server knows. */
    method SetField(key: View, value: View)
      requires key.View? && value.View? && InView(key) && InView(value)
      requires 0 < value.start && value.end < bufEnd <= buf.Length
      requires buf[value.start - 1] == ':' && buf[value.end] == '\r'
      requires InView(id) && InView(uri) && InView(verbView) && bodyLen < TWO_63
      modifies this`id, this`bodyLen, this`status, this`stage
      ensures InView(id) && bodyLen < TWO_63
      ensures Abs(buf[..]) == ApplyField(old(Abs(buf[..])), Field(Text(buf[..], key), Text(buf[..], value)))
    {
      hide Trim, Number, Text, Compare;
      var isLength := CompareVs(buf, key, "Content-Length");
      if isLength == 0 {
        SetBodyLength(value);
        return;
      }
      var isId := CompareVs(buf, key, "RequestID");
      if isId == 0 {
        id := TrimWhitespace(buf, value, value.start - 1, value.end);
      }
    }

    method SetBodyLength(value: View)
      requires value.View? && InView(value)
      requires 0 < value.start && value.end < bufEnd <= buf.Length
      requires buf[value.start - 1] == ':' && buf[value.end] == '\r' && bodyLen < TWO_63
      modifies this`bodyLen, this`status, this`stage
      ensures bodyLen < TWO_63
      ensures Abs(buf[..]) == ApplyField(old(Abs(buf[..])), Field("Content-Length", Text(buf[..], value)))
    {
      hide Trim, Number, Text;
      var len, _ := ParseToInt(buf, value, value.start - 1, value.end);
      if len < 0 {
        status, stage := BAD_REQUEST, BUILD_HEADER;
        return;
      }
      bodyLen := len;
    }

    /** The C string at a[from..], up to its terminator. */
    static method CString(a: array<char>, from: nat, ghost stop: nat) returns (s: string)
      requires from <= stop < a.Length && a[stop] == '\0'
      requires forall k | from <= k < stop :: a[k] != '\0'
      ensures s == a[from..stop]
    {
      var i := from;
      while a[i] != '\0'
        invariant from <= i <= stop
        decreases stop - i
      {
        i := i + 1;
      }
      return a[from..i];
    }

    /** The path of the request as a C string, unless it is too long for the path buffer. */
    method PathString() returns (path: Option<string>)
      requires uri.View? && InView(uri) && bufEnd <= buf.Length && ValidPath(Text(buf[..], uri))
      ensures path == if |Text(buf[..], uri)| < MAX_PATH then Some(PathOf(Text(buf[..], uri))) else None
    {
      ghost var text := Text(buf[..], uri);
      var chars := new char[MAX_PATH](_ => '\0');
      var ok := FillStr(buf, uri, chars, MAX_PATH);
      if !ok {
        return None;
      }
      forall k | 1 <= k < |text| ensures chars[k] != '\0' {
        assert chars[k] == chars[..|text|][k] == text[k] && PathChar(text[k]);
      }
      assert chars[1..|text|] == chars[..|text|][1..] == text[1..];
      var s := CString(chars, 1, |text|);
      return Some(s);
    }

    /** Opens the file of a GET or HEAD request. */
    method OpenGetFile(os: Os) returns (ok: bool)
      requires uri.View? && InView(uri) && bufEnd <= buf.Length && ValidPath(Text(buf[..], uri))
      requires os.Valid() && getFd == -1
      modifies this`status, this`getFd, os`open, os`nextFd
      ensures os.Valid()
      ensures var u := Text(buf[..], uri);
              match OpenFailure(u, os.getLookup)
              case Some(st) => !ok && status == st && getFd == -1 && os.open == old(os.open)
              case None =>
                && ok && status == old(status) && getFd >= 0 && getFd !in old(os.open)
                && os.getLookup(PathOf(u)).Content?
                && os.open == old(os.open)[getFd := Reading(FileOf(u, os.getLookup), 0)]
    {
      hide ValidPath, Text;
      var path := PathString();
      if path == None {
        status := BAD_REQUEST;
        return false;
      }
      var answer := os.Lstat(path.value);
      if answer == NoEntry || answer == StatError {
        status := if answer == NoEntry then NOT_FOUND else FORBIDDEN;
        return false;
      }
      if answer != Regular {
        getFd, status := -1, FORBIDDEN;
        return false;
      }
      getFd := os.OpenForReading(path.value);
      if getFd < 0 {
        status := FORBIDDEN;
        return false;
      }
      return true;
    }

    /** The single check of read_hf for room in the buffer, which does not make it return. */
    method CheckRoom(os: Os) returns (space: nat)
      requires stage == HEADER_FIELDS && HeaderInv(os)
      modifies this`status, this`stage, this`crowded
      ensures space == MAX_HEADER - bufEnd && (crowded <==> space < 2)
      ensures HeaderBase(os) && Abs(os.stream) == Crowd(old(Abs(os.stream)))
      ensures OnTrackFrom(os, old(Abs(os.stream)))
    {
      hide Client, LineRead, Untouched, Received, Text, ValidPath, OneShot;
      space := BufLeft(bufEnd, buf.Length);
      if space < 2 {
        status, stage := BAD_REQUEST, BUILD_HEADER;
        crowded := true;
      }
    }

    ghost function Crowd(p: Parse): Parse
      reads this`crowded
    {
      if crowded then Fail(p, BAD_REQUEST) else p
    }

    method ReadHf(os: Os) returns (proceed: bool)
      requires stage == HEADER_FIELDS && HeaderInv(os)
      modifies this`bufEnd, this`parsedEnd, this`bodyLen, this`id, this`getFd, this`status, this`stage
      modifies this`crowded, this`headerDone, this`bodyAt, this`contentLength
      modifies buf, os`clock, os`drawn, os`faulted, os`open, os`nextFd
      ensures Inv(os) && os.drawn >= old(os.drawn) && os.clock >= old(os.clock)
      ensures !proceed ==> stage == (if crowded then BUILD_HEADER else HEADER_FIELDS)
      ensures !proceed ==> os.Blocked(old(os.clock)) || Starved(os)
      ensures proceed ==> stage in {HEADER_FIELDS, READ_BODY, BUILD_HEADER, FINISHED}
      ensures proceed && stage == HEADER_FIELDS ==> parsedEnd > old(parsedEnd)
      ensures crowded <==> MAX_HEADER - old(bufEnd) < 2
      ensures crowded ==> IsError(status) && stage != HEADER_FIELDS
      ensures !crowded && !os.faulted && !InHeader(stage) ==> Parsed(os)
      ensures !os.faulted ==> (headerDone <==> BlankNext(os, old(parsedEnd)))
      ensures Eager(os) && old(bufEnd) == os.Early() ==> bufEnd == os.Early()
      ensures Calm(os) ==> !os.faulted
      ensures os.faulted ==> FailedEarly(os)
    {
      hide HeaderBase, ScanAt, HeaderInv, Abs, OnTrackFrom, Crowd, Inv, Eager, Calm, Starved, Parsed, LineMissing,
        NextLine, FailedEarly;
      ghost var p := Abs(os.stream);
      HeaderFacts(os);
      var space := CheckRoom(os);
      var lineEnd;
      lineEnd, proceed := AwaitLine(os, space, p);
      if lineEnd.Some? {
        BaseFacts(os);
        LineInStream(os, lineEnd.value);
        HeaderFieldStep(os, lineEnd.value, p);
      } else if !os.faulted {
        NoBlankNext(os);
      }
    }

    /** The next line of the stream is the blank one, and it has been received. */
    ghost predicate BlankNext(os: Os, from: nat)
      reads this`bufEnd
    {
      from + 2 <= bufEnd && from <= |os.stream| && NextLine(os.stream, from) == Some(from + 2)
    }

    lemma NoBlankNext(os: Os)
      requires LineMissing(os)
      ensures !BlankNext(os, parsedEnd)
    {
    }

    /** The read loop of read_hf: a line, or the reason to leave without one. */
    method AwaitLine(os: Os, space: nat, ghost p: Parse) returns (lineEnd: Option<nat>, proceed: bool)
      requires HeaderBase(os) && !os.faulted && Abs(os.stream) == Crowd(p) && OnTrackFrom(os, p)
      requires p.pos == parsedEnd && space == MAX_HEADER - bufEnd && (crowded <==> space < 2)
      modifies this`bufEnd, this`stage, this`status, buf, os`clock, os`drawn, os`faulted
      ensures os.drawn >= old(os.drawn) && os.clock >= old(os.clock)
      ensures lineEnd.Some? ==>
                && proceed && HeaderBase(os) && !os.faulted && Abs(os.stream) == Crowd(p)
                && parsedEnd <= bufEnd && lineEnd == ScanAt(buf[..], parsedEnd, bufEnd, CRLF, 0)
      ensures lineEnd.None? ==> Inv(os) && (!os.faulted ==> LineMissing(os)) && !headerDone
      ensures lineEnd.None? && proceed ==> (stage == BUILD_HEADER || stage == FINISHED) && (crowded || os.faulted)
      ensures !proceed ==>
                && lineEnd.None? && stage == (if crowded then BUILD_HEADER else HEADER_FIELDS)
                && (os.Blocked(old(os.clock)) || Starved(os))
      ensures crowded && lineEnd.None? ==> IsError(status)
      ensures Eager(os) && old(bufEnd) == os.Early() ==> bufEnd == os.Early()
      ensures Calm(os) ==> !os.faulted
      ensures os.faulted ==> FailedEarly(os)
    {
      hide HeaderBase, ScanAt, BuildInv, FinishInv, BodyInv, SendInv, HeaderInv, Abs, OnTrackFrom, Crowd, Received,
        LineMissing, Starved, Calm;
      BaseFacts(os);
      lineEnd := FindDelim(buf, parsedEnd, bufEnd, CRLF);
      while lineEnd == None
        invariant HeaderBase(os) && Abs(os.stream) == Crowd(p) && p.pos == parsedEnd
        invariant parsedEnd <= bufEnd <= buf.Length && bufEnd <= os.drawn <= |os.stream|
        invariant !os.faulted && os.drawn >= old(os.drawn) && os.clock >= old(os.clock)
        invariant lineEnd == ScanAt(buf[..], parsedEnd, bufEnd, CRLF, 0)
        invariant Eager(os) && old(bufEnd) == os.Early() ==> bufEnd == os.Early()
        decreases |os.stream| - os.drawn
      {
        assert LineMissing(os) by { BaseFacts(os); NoLineInStream(os); }
        var r := ReadMore(os, space);
        BaseFacts(os);
        CrowdStatus(os, p);
        match r
        case Ready(_) => lineEnd := FindDelim(buf, parsedEnd, bufEnd, CRLF);
        case WouldBlock => WaitInHeader(os, p, old(os.clock)); return None, false;
        case Closed => stage := FINISHED; HungUp(os); return None, true;
        case Failed => stage, status := BUILD_HEADER, INTERNAL_ERROR; GaveUp(os); return None, true;
      }
      return lineEnd, true;
    }

    /** Waiting for a field line, unless EAGAIN was reported, is waiting for the client. */
    lemma WaitInHeader(os: Os, p: Parse, from: nat)
      requires HeaderBase(os) && !os.faulted && Abs(os.stream) == Crowd(p) && OnTrackFrom(os, p)
      requires p.pos == parsedEnd && LineMissing(os) && (os.Blocked(from) || os.drawn == os.Early())
      ensures Inv(os) && stage == (if crowded then BUILD_HEADER else HEADER_FIELDS)
      ensures os.Blocked(from) || Starved(os)
    {
      Waiting(os, p);
      hide HeaderInv, BuildInv, Received, LineMissing, Starved, Client, LineRead;
      if os.drawn == os.Early() {
        Unsent(os, p);
      }
    }

    lemma CrowdStatus(os: Os, p: Parse)
      requires Abs(os.stream) == Crowd(p)
      ensures crowded ==> status == BAD_REQUEST
    {
    }

    lemma HeaderFacts(os: Os)
      requires HeaderInv(os)
      ensures buf.Length == MAX_HEADER && parsedEnd <= bufEnd <= os.drawn <= |os.stream| && bufEnd <= MAX_HEADER
      ensures Abs(os.stream).pos == parsedEnd && !os.faulted && !crowded
    {
    }

    lemma BaseFacts(os: Os)
      requires HeaderBase(os)
      ensures buf.Length == MAX_HEADER && parsedEnd <= bufEnd <= os.drawn <= |os.stream| && bufEnd <= MAX_HEADER
      ensures Received(os) && !headerDone && bufEnd <= os.Early() <= MAX_HEADER
    {
    }

    /** p is on the way to the one-shot parse, with an accepted request line. */
    static ghost predicate OnTrackFrom(os: Os, p: Parse) {
      && p.pos <= |os.stream| && OneShot(os.stream, p, os.getLookup) == OneShot(os.stream, START, os.getLookup)
      && p.stage == HEADER_FIELDS && p.status == OK && p.verb in {GET, PUT, HEAD} && ValidPath(p.uri)
    }

    lemma Waiting(os: Os, p: Parse)
      requires HeaderBase(os) && !os.faulted && Abs(os.stream) == Crowd(p) && OnTrackFrom(os, p)
      ensures if crowded then stage == BUILD_HEADER && status == BAD_REQUEST && BuildInv(os)
              else stage == HEADER_FIELDS && HeaderInv(os)
    {
      hide Client, LineRead, Untouched, Received, Text, ValidPath, OneShot;
      if crowded {
        GaveUp(os);
      }
    }

    /** The end of read_hf: a complete line is a field or the end of the header. */
    method HeaderFieldStep(os: Os, e: nat, ghost p: Parse)
      requires HeaderBase(os) && !os.faulted && Abs(os.stream) == Crowd(p)
      requires OnTrackFrom(os, p)
      requires parsedEnd + 2 <= e <= bufEnd && NextLine(os.stream, parsedEnd) == Some(e)
      requires buf[parsedEnd..e - 2] == os.stream[parsedEnd..e - 2] && buf[e - 2] == '\r'
      modifies this`id, this`bodyLen, this`getFd, this`status, this`stage, this`parsedEnd
      modifies this`headerDone, this`bodyAt, this`contentLength, os`open, os`nextFd
      ensures Inv(os) && stage in {HEADER_FIELDS, READ_BODY, BUILD_HEADER}
      ensures parsedEnd == e && (headerDone <==> e == old(parsedEnd) + 2)
      ensures crowded ==> IsError(status) && stage != HEADER_FIELDS
      ensures !crowded && stage != HEADER_FIELDS ==> Parsed(os)
    {
      hide Parsed, OnTrackFrom, Inv, Crowd;
      BaseFacts(os);
      if parsedEnd >= e - 2 {
        BlankLineStep(os, e, p);
      } else {
        FieldStep(os, e, p);
      }
    }

    method FieldStep(os: Os, e: nat, ghost p: Parse)
      requires HeaderBase(os) && !os.faulted && Abs(os.stream) == Crowd(p)
      requires OnTrackFrom(os, p)
      requires parsedEnd + 2 < e <= bufEnd && NextLine(os.stream, parsedEnd) == Some(e)
      requires buf[parsedEnd..e - 2] == os.stream[parsedEnd..e - 2] && buf[e - 2] == '\r'
      modifies this`id, this`bodyLen, this`status, this`stage, this`parsedEnd
      ensures Inv(os) && stage in {HEADER_FIELDS, BUILD_HEADER}
      ensures parsedEnd == e
      ensures crowded ==> IsError(status) && stage != HEADER_FIELDS
      ensures !crowded && stage != HEADER_FIELDS ==> Parsed(os)
    {
      hide Client, LineRead, Untouched, Text, NextLine, ParseHf, ValidPath, OneShot;
      ghost var s := os.stream;
      ghost var line := s[parsedEnd..e - 2];
      assert buf[..][..bufEnd] == s[..bufEnd];
      AbsAgrees(buf[..], s);
      ParseHeaderField(parsedEnd, e - 2);
      AbsAgrees(buf[..], s);
      parsedEnd := e;
      AfterField(os, p, line, e);
    }

    lemma AfterField(os: Os, p: Parse, line: string, e: nat)
      requires HeaderBase(os) && !os.faulted && OnTrackFrom(os, p) && line != "" && p.pos + 2 <= e
      requires NextLine(os.stream, p.pos) == Some(e) && line == os.stream[p.pos..e - 2]
      requires Abs(os.stream) == ParseHf(Crowd(p), line).(pos := e)
      ensures Inv(os) && stage in {HEADER_FIELDS, BUILD_HEADER}
      ensures crowded ==> IsError(status) && stage != HEADER_FIELDS
      ensures !crowded && stage != HEADER_FIELDS ==> Parsed(os)
    {
      var s := os.stream;
      ParseHfOutcome(p, line);
      ParseHfOutcome(Fail(p, BAD_REQUEST), line);
      hide ParseHf, NextLine, Client, LineRead, Text, Received, Untouched, ValidPath;
      if crowded {
        GaveUp(os);
      } else {
        OneShotStep(s, p, e, os.getLookup);
        assert Abs(s) == Advance(p, line, e, os.getLookup);
        if stage == HEADER_FIELDS {
          Waiting(os, Abs(s));
        } else {
          OneShotFails(s, Abs(s), os.getLookup);
          HeaderEnded(os);
        }
      }
    }

    /** The header has ended, in a response, where the one-shot parse ends. */
    lemma HeaderEnded(os: Os)
      requires Shape(os) && Received(os) && LineRead(os) && Files(os) && os.sent == "" && resEnd == flushed == 0
      requires stage == BUILD_HEADER && Abs(os.stream) == OneShot(os.stream, START, os.getLookup)
      requires verb in {GET, PUT, HEAD} && (status == OK ==> getFd != -1) && !crowded
      ensures BuildInv(os)
    {
      hide OneShot, Text, LineRead, Files, Shape, Received;
    }

    method BlankLineStep(os: Os, e: nat, ghost p: Parse)
      requires HeaderBase(os) && !os.faulted && Abs(os.stream) == Crowd(p)
      requires OnTrackFrom(os, p)
      requires e == parsedEnd + 2 <= bufEnd && NextLine(os.stream, parsedEnd) == Some(e)
      modifies this`getFd, this`status, this`stage, this`parsedEnd, this`headerDone, this`bodyAt, this`contentLength
      modifies os`open, os`nextFd
      ensures Inv(os) && stage in {READ_BODY, BUILD_HEADER}
      ensures parsedEnd == e && headerDone
      ensures crowded ==> IsError(status)
      ensures !crowded ==> Parsed(os)
    {
      hide Client, LineRead, Text, NextLine, OneShot, ValidPath, BuildInv, BodyInv, OpenFailure, FileOf, PathOf,
        Received, OnTrackFrom, HeaderInv, SendInv, FinishInv, Os.Valid, Looked, LookedStatus, Parsed;
      VerbKnown(os, p);
      if verb == HEAD || verb == GET {
        OpenStep(os, p);
      }
      LeaveHeader(os, e, p);
    }

    /** The end of the blank line: whatever the look-up left in the stage is overwritten. */
    method LeaveHeader(os: Os, e: nat, ghost p: Parse)
      requires Shape(os) && Received(os) && LineRead(os) && OnTrackFrom(os, p) && !os.faulted && os.sent == ""
      requires e == p.pos + 2 <= bufEnd && NextLine(os.stream, p.pos) == Some(e) && verb == p.verb
      requires resEnd == flushed == 0 && putFd == -1 && os.drawn == bufEnd
      requires if verb == PUT then Untouched(os) && Abs(os.stream) == Crowd(p)
               else Looked(os, p) && Abs(os.stream).(stage := BUILD_HEADER) ==
                      Crowd(p).(stage := BUILD_HEADER, status := LookedStatus(os, p))
      modifies this`stage, this`parsedEnd, this`headerDone, this`bodyAt, this`contentLength
      ensures Inv(os) && stage in {READ_BODY, BUILD_HEADER}
      ensures parsedEnd == e && headerDone
      ensures crowded ==> IsError(status)
      ensures !crowded ==> Parsed(os)
    {
      hide Client, LineRead, Text, NextLine, OneShot, ValidPath, BuildInv, BodyInv, OpenFailure, FileOf, PathOf,
        Received, OnTrackFrom, HeaderInv, SendInv, FinishInv, Os.Valid, Looked, LookedStatus, Parsed;
      VerbKnown(os, p);
      stage := if verb == PUT then READ_BODY else BUILD_HEADER;
      bodyAt, contentLength, headerDone := e, bodyLen, true;
      parsedEnd := e;
      if verb == PUT {
        BodyBegins(os, p, e);
      } else {
        FileAnswered(os, p, e);
      }
    }

    lemma VerbKnown(os: Os, p: Parse)
      requires OnTrackFrom(os, p)
      ensures p.verb in {GET, PUT, HEAD}
    {
    }

    ghost predicate Looked(os: Os, p: Parse)
      reads this`getFd, os`open
    {
      match OpenFailure(p.uri, os.getLookup)
      case Some(_) => getFd == -1 && os.open == map[]
      case None =>
        && getFd >= 0 && os.getLookup(PathOf(p.uri)).Content?
        && os.open == map[getFd := Reading(FileOf(p.uri, os.getLookup), 0)]
    }

    /** The status after the look-up: that of a failure, else what it was. */
    ghost function LookedStatus(os: Os, p: Parse): Status
      reads this`crowded
    {
      match OpenFailure(p.uri, os.getLookup)
      case Some(st) => st
      case None => Crowd(p).status
    }

    method OpenStep(os: Os, ghost p: Parse)
      requires HeaderBase(os) && Abs(os.stream) == Crowd(p) && OnTrackFrom(os, p)
      modifies this`status, this`stage, this`getFd, os`open, os`nextFd
      ensures Shape(os) && Looked(os, p)
      ensures Abs(os.stream).(stage := BUILD_HEADER) ==
              Crowd(p).(stage := BUILD_HEADER, status := LookedStatus(os, p))
    {
      hide Client, LineRead, Text, NextLine, OneShot, ValidPath, OpenFailure, FileOf, PathOf;
      ghost var s := os.stream;
      assert buf[..][..bufEnd] == s[..bufEnd];
      TextAgrees(buf[..], s, uri);
      PathView(s);
      var ok := OpenGetFile(os);
      if !ok {
        stage := BUILD_HEADER;
      }
    }

    lemma PathView(s: string)
      requires ValidPath(Text(s, uri))
      ensures uri.View?
    {
    }

    lemma OneShotBlankLine(os: Os, p: Parse, e: nat)
      requires OnTrackFrom(os, p) && e == p.pos + 2 && NextLine(os.stream, p.pos) == Some(e)
      ensures OneShot(os.stream, START, os.getLookup) == EndOfHeader(p, os.getLookup).(pos := e)
    {
      var s := os.stream;
      hide NextLine, ValidPath;
      assert s[p.pos..e - 2] == "";
      OneShotStep(s, p, e, os.getLookup);
      OneShotFails(s, EndOfHeader(p, os.getLookup).(pos := e), os.getLookup);
    }

    /** The header of a GET or HEAD has ended and its file was looked up. */
    lemma FileAnswered(os: Os, p: Parse, e: nat)
      requires Shape(os) && Received(os) && LineRead(os) && OnTrackFrom(os, p) && !os.faulted
      requires os.sent == "" && resEnd == flushed == 0 && putFd == -1 && headerDone
      requires e == p.pos + 2 && NextLine(os.stream, p.pos) == Some(e)
      requires p.verb == GET || p.verb == HEAD
      requires Abs(os.stream) == Crowd(p).(pos := e, stage := BUILD_HEADER, status := LookedStatus(os, p))
      requires Looked(os, p)
      ensures BuildInv(os) && (crowded ==> IsError(status)) && (!crowded ==> Parsed(os))
    {
      OneShotBlankLine(os, p, e);
      OpenFailureIsError(p.uri, os.getLookup);
      hide OneShot, NextLine, LineRead, ValidPath, Shape, Received, Text, OpenFailure, FileOf, PathOf;
      assert Files(os);
      if crowded {
        assert IsError(status);
      } else {
        HeaderEnded(os);
      }
    }

    /** The header of a PUT has ended. */
    lemma BodyBegins(os: Os, p: Parse, e: nat)
      requires Shape(os) && Received(os) && LineRead(os) && OnTrackFrom(os, p) && Untouched(os) && !os.faulted
      requires e == p.pos + 2 <= bufEnd == os.drawn && NextLine(os.stream, p.pos) == Some(e)
      requires p.verb == PUT && Abs(os.stream) == Crowd(p).(pos := e, stage := READ_BODY)
      requires bodyAt == e && contentLength == bodyLen && headerDone
      ensures BodyInv(os) && (crowded ==> IsError(status)) && (!crowded ==> Parsed(os))
    {
      OneShotBlankLine(os, p, e);
      hide OneShot, NextLine, LineRead, ValidPath, Received, Text, PathOf;
    }

    // ------------------------------------------------------------ the body of a PUT

    /** Opens the file of a PUT for writing, creating it when it does not exist. */
    method CreateFilename(os: Os) returns (ok: bool)
      requires uri.View? && InView(uri) && bufEnd <= buf.Length && ValidPath(Text(buf[..], uri))
      requires os.Valid() && putFd == -1 && os.open == map[]
      modifies this`status, this`putFd, os`open, os`nextFd, os`stored
      ensures os.Valid()
      ensures var u := Text(buf[..], uri);
              && (ok <==> |u| < MAX_PATH && (os.putLookup(PathOf(u)).Truncates? || os.putLookup(PathOf(u)).Creates?))
              && (!ok ==> status == PutStatus(u, false, os.putLookup) && putFd == -1 && os.open == map[])
              && (ok ==>
                    && status == (if os.putLookup(PathOf(u)).Creates? then CREATED else old(status))
                    && putFd >= 0 && os.open == map[putFd := Writing(PathOf(u))]
                    && os.stored == old(os.stored)[PathOf(u) := ""])
    {
      hide ValidPath, Text, PathOf;
      var path := PathString();
      if path == None {
        status := INTERNAL_ERROR;
        return false;
      }
      var fd, enoent := os.OpenTruncate(path.value);
      putFd := fd;
      if putFd < 0 && enoent {
        putFd := os.OpenCreate(path.value);
        status := CREATED;
      }
      if putFd < 0 {
        status := FORBIDDEN;
        return false;
      }
      return true;
    }

    /** size_t subtraction. */
    static function SizeSub(a: nat, b: nat): (r: nat)
      requires a < TWO_63 && b < TWO_63
      ensures r == if a >= b then a - b else a - b + TWO_64
    {
      (a - b) % TWO_64
    }

    /** The next round of the body creates the file. */
    ghost predicate Creating(os: Os)
      reads this`stage, this`putFd, this`uri
    {
      var u := Text(os.stream, uri);
      stage == READ_BODY && putFd == -1 && |u| < MAX_PATH && os.putLookup(PathOf(u)).Creates?
    }

    /** More of the body has arrived with the header than was announced. */
    ghost predicate Excess()
      reads this`bufEnd, this`bodyAt, this`contentLength
    {
      bufEnd > bodyAt + contentLength
    }

    /** The first call of a body opens the file, later calls find it open. */
    method EnsureFile(os: Os) returns (ok: bool)
      requires stage == READ_BODY && BodyInv(os)
      modifies this`status, this`stage, this`putFd, os`open, os`nextFd, os`stored
      ensures ok ==> stage == READ_BODY && BodyBase(os) && putFd != -1
      ensures !ok ==> stage == BUILD_HEADER && BuildInv(os)
      ensures old(putFd) != -1 ==> ok
      ensures ok ==> status == if old(Creating(os)) then CREATED else old(status)
      ensures !ok ==> !old(Creating(os)) && IsError(status) && status != BAD_REQUEST
    {
      hide LineRead, Received, Text, ValidPath, OneShot, BuildInv, PutStatus, PathOf;
      if putFd == -1 {
        ghost var s := os.stream;
        assert buf[..][..bufEnd] == s[..bufEnd] by { ReceivedPrefix(os); }
        TextAgrees(buf[..], s, uri);
        PathView(s);
        ok := CreateFilename(os);
        CreatedStatus(Text(s, uri), os);
        if !ok {
          stage := BUILD_HEADER;
          NotCreated(os);
          return false;
        }
        assert s[bodyAt..bodyAt] == "";
      }
      return true;
    }

    lemma ReceivedPrefix(os: Os)
      requires Received(os)
      ensures bufEnd <= buf.Length && bufEnd <= |os.stream| && buf[..][..bufEnd] == os.stream[..bufEnd]
    {
      assert buf[..][..bufEnd] == buf[..bufEnd];
    }

    lemma CreatedStatus(u: string, os: Os)
      ensures |u| < MAX_PATH && os.putLookup(PathOf(u)).Truncates? ==> PutStatus(u, false, os.putLookup) == OK
      ensures |u| < MAX_PATH && os.putLookup(PathOf(u)).Creates? ==> PutStatus(u, false, os.putLookup) == CREATED
      ensures |u| >= MAX_PATH || os.putLookup(PathOf(u)).Refused? || os.putLookup(PathOf(u)).CreateFails? ==>
                IsError(PutStatus(u, false, os.putLookup))
                && PutStatus(u, true, os.putLookup) == PutStatus(u, false, os.putLookup)
      ensures PutStatus(u, false, os.putLookup) != BAD_REQUEST
      ensures !IsError(PutStatus(u, false, os.putLookup)) ==> PutStatus(u, true, os.putLookup) == INTERNAL_ERROR
    {
    }

    /** The file could not be opened: the failure is the response. */
    lemma NotCreated(os: Os)
      requires Shape(os) && Received(os) && LineRead(os) && os.sent == "" && resEnd == flushed == 0
      requires verb == PUT && putFd == getFd == -1 && os.open == map[]
      requires status == PutStatus(Text(os.stream, uri), false, os.putLookup) && IsError(status)
      requires PutStatus(Text(os.stream, uri), true, os.putLookup) == status
      requires ReadAsPut(os) && headerDone
      ensures BuildInv(os)
    {
      hide OneShot, Text, LineRead, Shape, PutStatus, Received;
    }

    /** The copy of the unparsed bytes at the start of read_request_body. */
    method CopyLeftover(scratch: array<char>) returns (end: nat)
      requires parsedEnd <= bufEnd <= buf.Length && bufEnd - parsedEnd <= scratch.Length && scratch != buf
      modifies scratch
      ensures end == bufEnd - parsedEnd && scratch[..end] == buf[parsedEnd..bufEnd]
    {
      var from := parsedEnd;
      end := 0;
      while from != bufEnd
        invariant parsedEnd <= from <= bufEnd && end == from - parsedEnd
        invariant scratch[..end] == buf[parsedEnd..from]
        decreases bufEnd - from
      {
        ghost var done := scratch[..end];
        scratch[end] := buf[from];
        assert scratch[..end + 1] == done + [buf[from]] == buf[parsedEnd..from + 1];
        end, from := end + 1, from + 1;
      }
    }

    /** scratch[from..to] holds the drawn body bytes that are not yet stored. */
    ghost predicate Holding(os: Os, scratch: array<char>, from: nat, to: nat)
      reads this`bodyLen, this`bodyAt, this`contentLength, os`drawn, scratch
    {
      && from <= to <= scratch.Length && bodyAt <= BodyPos()
      && BodyPos() + (to - from) == os.drawn <= |os.stream|
      && scratch[from..to] == os.stream[BodyPos()..os.drawn]
    }

    /** One write to the file. */
    method DepositSome(os: Os, scratch: array<char>, from: nat, to: nat) returns (n: nat)
      requires Shape(os) && Files(os) && putFd != -1 && FileHolds(os) && Holding(os, scratch, from, to)
      requires from < to && to - from <= bodyLen <= contentLength
      modifies this`bodyLen, os`clock, os`stored, os`faulted
      ensures Shape(os) && n <= to - from && bodyLen == old(bodyLen) - n
      ensures if n > 0 then os.faulted == old(os.faulted) && FileHolds(os) && Holding(os, scratch, from + n, to)
              else os.faulted && os.schedule(old(os.clock)).Error?
      ensures os.clock == old(os.clock) + 1
    {
      hide Text, PathOf, FileOf;
      var r := os.WriteFile(putFd, scratch, from, to);
      if !r.Ready? {
        return 0;
      }
      n := r.n;
      Appended(os, scratch, from, to, n);
      bodyLen := bodyLen - n;
    }

    /** The write loop of read_request_body. */
    method Deposit(os: Os, scratch: array<char>, to: nat) returns (ok: bool)
      requires Shape(os) && Files(os) && putFd != -1 && FileHolds(os) && Holding(os, scratch, 0, to)
      requires to <= bodyLen <= contentLength
      modifies this`bodyLen, os`clock, os`stored, os`faulted
      ensures Shape(os) && bodyLen <= old(bodyLen)
      ensures if ok then
                os.faulted == old(os.faulted) && FileHolds(os) && bodyLen == old(bodyLen) - to && BodyPos() == os.drawn
              else os.faulted
      ensures os.clock >= old(os.clock) && (Calm(os) ==> ok)
      ensures !ok ==> os.clock > 0 && os.schedule(os.clock - 1).Error?
    {
      hide Shape, Files, FileHolds;
      var from := 0;
      while from != to
        invariant from <= to && bodyLen == old(bodyLen) - from
        invariant Shape(os) && FileHolds(os) && Holding(os, scratch, from, to) && os.faulted == old(os.faulted)
        invariant os.clock >= old(os.clock)
      {
        var n := DepositSome(os, scratch, from, to);
        if n == 0 {
          return false;
        }
        from := from + n;
      }
      return true;
    }

    /** Storing n more held bytes extends the stored prefix of the body by n. */
    lemma Appended(os: Os, scratch: array<char>, from: nat, to: nat, n: nat)
      requires Holding(os, scratch, from, to) && n <= to - from && n <= bodyLen
      ensures var p := BodyPos();
              && scratch[from + n..to] == os.stream[p + n..os.drawn]
              && os.stream[bodyAt..p] + scratch[from..from + n] == os.stream[bodyAt..p + n]
    {
      var p := BodyPos();
      assert scratch[from..from + n] == scratch[from..to][..n] == os.stream[p..os.drawn][..n] == os.stream[p..p + n];
      assert scratch[from + n..to] == scratch[from..to][n..] == os.stream[p..os.drawn][n..];
    }

    /** One round of the body: what is left in the header buffer and one read go to the file.
        Between rounds, suspended or not, the file is a prefix of the body. */
    method ReadRequestBody(os: Os) returns (proceed: bool)
      requires stage == READ_BODY && BodyInv(os)
      modifies this`status, this`stage, this`putFd, this`bodyLen, this`parsedEnd
      modifies os`clock, os`drawn, os`faulted, os`open, os`nextFd, os`stored
      ensures Inv(os) && os.drawn >= old(os.drawn)
      ensures !proceed ==> stage == READ_BODY
      ensures proceed ==> stage in {READ_BODY, BUILD_HEADER, FINISHED}
      ensures proceed && stage == READ_BODY ==> bodyLen < old(bodyLen) && parsedEnd >= old(parsedEnd)
      ensures old(os.faulted) ==> os.faulted
      ensures os.clock >= old(os.clock)
      ensures !proceed ==> os.Blocked(old(os.clock)) || Starved(os)
      ensures os.faulted && !old(os.faulted) ==> FailedEarly(os)
      ensures Calm(os) ==> os.faulted == old(os.faulted)
      ensures status == BAD_REQUEST ==> old(status) == BAD_REQUEST
      ensures IsError(old(status)) && !IsError(status) ==> old(Creating(os))
      ensures old(Creating(os)) && !os.faulted ==> status == if Excess() then INTERNAL_ERROR else CREATED
    {
      hide BodyRest, BodyAgreed, BodyProgress, BuildInv, FinishInv, SendInv, HeaderInv, Holding, Os.Valid, Received,
        Creating, Starved, Calm, FailedEarly;
      assert Received(os) by { RestFacts(os); }
      var scratch := new char[READ_LEN](_ => '\0');
      var end := CopyLeftover(scratch);
      var space := BufLeft(end, READ_LEN);
      assert space > end; // so the test for a full buffer, server.c:334, never fires
      var readLen := SizeSub(if space > bodyLen then bodyLen else space, end);
      var isOpen := EnsureFile(os);
      if !isOpen {
        return true;
      }
      HoldLeftover(os, scratch, end);
      proceed := ReadAndStore(os, scratch, end, readLen);
    }

    method ReadAndStore(os: Os, scratch: array<char>, end: nat, readLen: nat) returns (proceed: bool)
      requires stage == READ_BODY && BodyBase(os) && putFd != -1 && scratch.Length == READ_LEN
      requires end == bufEnd - parsedEnd && Holding(os, scratch, 0, end)
      requires readLen == SizeSub(if READ_LEN - end > bodyLen then bodyLen else READ_LEN - end, end)
      modifies this`status, this`stage, this`bodyLen, this`parsedEnd
      modifies os`clock, os`drawn, os`faulted, os`stored, scratch
      ensures Inv(os) && os.drawn >= old(os.drawn)
      ensures !proceed ==> stage == READ_BODY
      ensures proceed ==> stage in {READ_BODY, BUILD_HEADER, FINISHED}
      ensures proceed && stage == READ_BODY ==> bodyLen < old(bodyLen) && parsedEnd >= old(parsedEnd)
      ensures old(os.faulted) ==> os.faulted
      ensures os.clock >= old(os.clock)
      ensures !proceed ==> os.Blocked(old(os.clock)) || Starved(os)
      ensures os.faulted && !old(os.faulted) ==> FailedEarly(os)
      ensures Calm(os) ==> os.faulted == old(os.faulted)
      ensures status == old(status) || status == INTERNAL_ERROR
      ensures !os.faulted ==> status == if Excess() then INTERNAL_ERROR else old(status)
    {
      hide BodyRest, BodyAgreed, BodyProgress, BuildInv, FinishInv, SendInv, HeaderInv, BodyInv,
        FileHolds, Holding, Os.Valid, Promised, Starved, Calm, FailedEarly;
      ProgressFacts(os);
      var held;
      held, proceed := DrawBody(os, scratch, end, readLen);
      if held.Some? {
        StoreBody(os, scratch, held.value);
      }
    }

    /** The switch of read_request_body: how much is held after the read, or the reason to leave.
        What is held is never more than was announced, so the test for too long a body,
        server.c:364, never fires. */
    method DrawBody(os: Os, scratch: array<char>, end: nat, readLen: nat) returns (held: Option<nat>, proceed: bool)
      requires stage == READ_BODY && BodyBase(os) && putFd != -1 && scratch.Length == READ_LEN
      requires end == bufEnd - parsedEnd && Holding(os, scratch, 0, end)
      requires readLen == SizeSub(if READ_LEN - end > bodyLen then bodyLen else READ_LEN - end, end)
      modifies this`status, this`stage, os`clock, os`drawn, os`faulted, scratch
      ensures os.drawn >= old(os.drawn) && os.clock >= old(os.clock)
      ensures held.Some? ==>
                && proceed && stage == READ_BODY && status == old(status) && os.faulted == old(os.faulted)
                && BodyRest(os) && Shape(os) && BodyAgreed(os) && FileHolds(os) && Holding(os, scratch, 0, held.value)
                && held.value <= bodyLen && (held.value > 0 || bodyLen == 0) && !Excess()
      ensures held.None? ==> Inv(os) && (proceed ==> stage in {BUILD_HEADER, FINISHED})
      ensures !proceed ==>
                held.None? && stage == READ_BODY && status == old(status) && (os.Blocked(old(os.clock)) || Starved(os))
      ensures held.None? && proceed ==> (os.faulted || Excess()) && (status == old(status) || status == INTERNAL_ERROR)
      ensures held.None? && !os.faulted ==> status == if Excess() then INTERNAL_ERROR else old(status)
      ensures old(os.faulted) ==> os.faulted
      ensures os.faulted && !old(os.faulted) ==> FailedEarly(os)
      ensures Calm(os) ==> os.faulted == old(os.faulted)
    {
      hide BodyRest, BodyAgreed, BodyProgress, BuildInv, FinishInv, SendInv, HeaderInv, BodyInv,
        FileHolds, Holding, Os.Valid, Promised, Starved;
      ProgressFacts(os);
      AgreedFacts(os);
      if readLen == 0 {
        return Some(end), true;
      }
      var r := ReadBodyBytes(os, scratch, end, readLen);
      match r
      case Ready(n) => return Some(end + n), true;
      case WouldBlock => BodyWaits(os, scratch, end, old(os.clock)); return None, false;
      case Closed => stage := FINISHED; BodyHungUp(os); return None, true;
      case Failed => stage, status := BUILD_HEADER, INTERNAL_ERROR; BodyFailed(os); return None, true;
    }

    lemma ProgressFacts(os: Os)
      requires BodyProgress(os) && Shape(os)
      ensures bodyAt <= bufEnd <= MAX_HEADER && parsedEnd <= bufEnd && bodyLen <= contentLength < TWO_63
      ensures bufEnd - parsedEnd > bodyLen <==> Excess()
      ensures parsedEnd == bufEnd || (parsedEnd == bodyAt && bodyLen == contentLength)
      ensures putFd != -1 ==> FileHolds(os)
    {
    }

    lemma RestFacts(os: Os)
      requires BodyRest(os)
      ensures Received(os) && Files(os) && LineRead(os) && verb == PUT && getFd == -1
      ensures os.sent == "" && resEnd == flushed == 0
    {
    }

    lemma BodyHungUp(os: Os)
      requires BodyRest(os) && Shape(os) && BodyAgreed(os) && os.faulted && stage == FINISHED
      ensures FinishInv(os)
    {
      hide Received, Files, LineRead, Whole, ReadAsPut;
    }

    /** The body cannot be read, or more of it has arrived than was announced. */
    lemma BodyFailed(os: Os)
      requires BodyRest(os) && Shape(os) && stage == BUILD_HEADER && status == INTERNAL_ERROR
      requires os.faulted || (Promised(os) && bufEnd > bodyAt + contentLength)
      ensures BuildInv(os)
    {
      hide Received, Files, LineRead, Text, OneShot, PutStatus, Shape;
      CreatedStatus(Text(os.stream, uri), os);
    }

    /** The header was read as the one-shot parse reads it and the file could be opened. */
    ghost predicate Promised(os: Os)
      reads this`verbView, this`uri, this`id, this`bodyAt, this`contentLength, this`headerDone
    {
      ReadAsPut(os) && headerDone && !IsError(PutStatus(Text(os.stream, uri), false, os.putLookup))
    }

    /** The whole announced body is stored. */
    lemma BodyDone(os: Os)
      requires BodyRest(os) && Shape(os) && BodyAgreed(os) && putFd != -1 && FileHolds(os)
      requires stage == BUILD_HEADER && bodyLen == 0 && BodyPos() == os.drawn
      ensures BuildInv(os)
    {
      hide Received, LineRead, Text, OneShot, PutStatus;
    }

    /** The end of read_request_body: everything held is stored. */
    method StoreBody(os: Os, scratch: array<char>, end: nat)
      requires stage == READ_BODY && BodyRest(os) && Shape(os) && BodyAgreed(os) && putFd != -1
      requires FileHolds(os) && Holding(os, scratch, 0, end) && end <= bodyLen <= contentLength < TWO_63
      requires bodyAt <= bufEnd
      modifies this`status, this`stage, this`bodyLen, this`parsedEnd, os`clock, os`stored, os`faulted
      ensures Inv(os)
      ensures stage in {READ_BODY, BUILD_HEADER}
      ensures stage == READ_BODY ==> bodyLen == old(bodyLen) - end && bodyLen > 0 && parsedEnd == bufEnd
      ensures old(os.faulted) ==> os.faulted
      ensures os.drawn == old(os.drawn) && os.clock >= old(os.clock)
      ensures status == old(status) || (os.faulted && status == INTERNAL_ERROR)
      ensures os.faulted && !old(os.faulted) ==> FailedEarly(os)
      ensures Calm(os) ==> os.faulted == old(os.faulted)
    {
      hide Text, PathOf, FileOf, BodyRest, BodyAgreed, FileHolds, BuildInv, BodyInv, Holding, Os.Valid;
      hide HeaderInv, FinishInv, SendInv, Files, Received, LineRead, PutStatus, ReadAsPut, Promised, ValidPath, OneShot;
      assert Files(os) by { RestFacts(os); }
      assert Promised(os) by { AgreedFacts(os); }
      var ok := Deposit(os, scratch, end);
      if !ok {
        status, stage := INTERNAL_ERROR, BUILD_HEADER;
        BodyFailed(os);
        return;
      }
      parsedEnd := bufEnd;
      if bodyLen <= 0 {
        stage := BUILD_HEADER;
        BodyDone(os);
      } else {
        BodyContinues(os);
      }
    }

    lemma AgreedFacts(os: Os)
      requires BodyAgreed(os) && putFd != -1
      ensures Promised(os)
    {
    }

    /** Everything that was drawn is stored, and more is to come. */
    lemma BodyContinues(os: Os)
      requires BodyRest(os) && Shape(os) && BodyAgreed(os) && putFd != -1 && FileHolds(os)
      requires parsedEnd == bufEnd && BodyPos() == os.drawn && bodyAt <= bufEnd && bodyLen <= contentLength < TWO_63
      ensures BodyInv(os)
    {
      hide BodyRest, BodyAgreed, FileHolds, Os.Valid;
    }

    /** Nothing more has arrived yet: whoever calls next finds the leftover where it was. */
    lemma BodyWaits(os: Os, scratch: array<char>, end: nat, from: nat)
      requires BodyRest(os) && Shape(os) && BodyAgreed(os) && BodyProgress(os)
      requires bufEnd - parsedEnd == end < bodyLen && Holding(os, scratch, 0, end)
      requires stage == READ_BODY && (os.Blocked(from) || os.drawn == |os.stream|)
      ensures BodyInv(os) && (os.Blocked(from) || Starved(os))
    {
      hide BodyRest, FileHolds, Os.Valid, OneShot, Text, PutStatus;
    }

    lemma HoldLeftover(os: Os, scratch: array<char>, end: nat)
      requires BodyBase(os) && end == bufEnd - parsedEnd <= scratch.Length
      requires scratch[..end] == buf[parsedEnd..bufEnd]
      ensures Holding(os, scratch, 0, end)
    {
      var s := os.stream;
      assert buf[parsedEnd..bufEnd] == buf[..bufEnd][parsedEnd..] == s[..bufEnd][parsedEnd..] == s[parsedEnd..bufEnd];
      assert scratch[0..end] == scratch[..end];
    }

    /** The read of read_request_body: at most readLen bytes behind the ones already held. */
    method ReadBodyBytes(os: Os, scratch: array<char>, end: nat, readLen: nat) returns (r: IoResult)
      requires Shape(os) && Holding(os, scratch, 0, end)
      requires readLen > 0 && (readLen < TWO_63 ==> end + readLen <= scratch.Length)
      modifies os`clock, os`drawn, os`faulted, scratch
      ensures Shape(os) && os.drawn >= old(os.drawn)
      ensures r.Ready? ==> 1 <= r.n <= readLen < TWO_63 && Holding(os, scratch, 0, end + r.n)
      ensures r.Ready? ==> os.drawn == old(os.drawn) + r.n
      ensures !r.Ready? ==> os.drawn == old(os.drawn) && Holding(os, scratch, 0, end)
      ensures r.Ready? || r.WouldBlock? ==> os.faulted == old(os.faulted)
      ensures readLen >= TWO_63 ==> r == Failed && os.faulted == old(os.faulted)
      ensures readLen < TWO_63 && (r.Closed? || r.Failed?) ==> os.faulted
      ensures old(os.faulted) ==> os.faulted
      ensures os.clock == old(os.clock) + 1
      ensures r.WouldBlock? ==> os.Blocked(old(os.clock)) || os.drawn == |os.stream|
      ensures Calm(os) ==> os.faulted == old(os.faulted)
      ensures readLen < TWO_63 ==>
                && (r.Failed? ==> os.schedule(old(os.clock)).Error?) && (r.Closed? ==> os.schedule(old(os.clock)).End?)
    {
      ghost var held, from, mid := scratch[..end], BodyPos(), os.drawn;
      assert held == os.stream[from..mid] by { assert scratch[0..end] == held; }
      r := os.ReadSocket(scratch, end, readLen, |os.stream|);
      if r.Ready? {
        assert scratch[0..end + r.n] == held + scratch[end..end + r.n];
        assert os.stream[from..os.drawn] == os.stream[from..mid] + os.stream[mid..os.drawn];
      } else {
        assert scratch[0..end] == scratch[..][0..end];
      }
    }

    // ------------------------------------------------------------ building the response

    /** copy_to: str, or as much of it as `len` allows. */
    static method CopyTo(dst: array<char>, at: nat, str: string, len: nat) returns (end: nat)
      requires at + Min(len, |str|) <= dst.Length && '\0' !in str
      modifies dst
      ensures end == at + Min(len, |str|)
      ensures dst[..end] == old(dst[..at]) + str[..end - at]
    {
      var i, left := 0, len;
      end := at;
      while i < |str| && left > 0
        invariant 0 <= i <= |str| && end == at + i && left == len - i
        invariant dst[..end] == old(dst[..at]) + str[..i]
        decreases left
      {
        ghost var done := dst[..end];
        dst[end] := str[i];
        assert dst[..end + 1] == done + [str[i]];
        assert str[..i + 1] == str[..i] + [str[i]];
        i, end, left := i + 1, end + 1, left - 1;
      }
    }

    /** copy_to into the response buffer, with room for all of str. */
    method Append(str: string, len: nat)
      requires resEnd + |str| <= resBuf.Length && |str| <= len && '\0' !in str
      modifies this`resEnd, resBuf
      ensures resEnd == old(resEnd) + |str| && resBuf[..resEnd] == old(resBuf[..resEnd]) + str
    {
      resEnd := CopyTo(resBuf, resEnd, str, len);
      assert str[..|str|] == str;
    }

    method AppendNumber(n: nat)
      requires n < TWO_64 && resEnd + |Dec(n)| <= resBuf.Length
      modifies this`resEnd, resBuf
      ensures resEnd == old(resEnd) + |Dec(n)| && resBuf[..resEnd] == old(resBuf[..resEnd]) + Dec(n)
    {
      ghost var before := resBuf[..resEnd];
      var len := MyUtoa(n, resBuf, resEnd);
      resEnd := resEnd + len;
      assert resBuf[..resEnd] == resBuf[..][..resEnd];
      assert |before + Dec(n)| == resEnd;
    }

    /** copy_code: three digits, then a space over whatever follows them. */
    method CopyCode()
      requires resEnd + 4 <= resBuf.Length
      modifies this`resEnd, resBuf
      ensures resEnd == old(resEnd) + 4 && resBuf[..resEnd] == old(resBuf[..resEnd]) + Dec(Code(status)) + " "
    {
      CodeDigits(status);
      ghost var at := resEnd;
      AppendNumber(Code(status));
      ghost var done := resBuf[..resEnd];
      resBuf[resEnd] := ' ';
      resEnd := resEnd + 1;
      assert resBuf[..resEnd] == done + [' '];
    }

    method BuildResponseRequestLine()
      requires resEnd == 0 && resBuf.Length == MAX_HEADER
      modifies this`resEnd, resBuf
      ensures resEnd <= 40 && resBuf[..resEnd] == StatusLine(status) + CRLF
    {
      assert '\0' !in StatusName(status) && |StatusName(status)| <= 21;
      StatusLineShape(status);
      hide StatusName, Code, Dec;
      assert resBuf[..0] == "";
      Append("HTTP/1.1 ", BufLeft(resEnd, resBuf.Length));
      assert resBuf[..resEnd] == "HTTP/1.1 ";
      CopyCode();
      Append(StatusName(status), BufLeft(resEnd, resBuf.Length));
      assert resBuf[..resEnd] == StatusLine(status);
      Append(CRLF, BufLeft(resEnd, resBuf.Length));
    }

    method BuildResponseHeaderFields(os: Os)
      requires os.Valid() && resEnd <= 40 && resBuf.Length == buf.Length == MAX_HEADER
      requires AnnouncesFile(verb, status) ==> getFd in os.open && os.open[getFd].Reading?
      modifies this`resEnd, resBuf, os`open
      ensures os.Valid()
      ensures AnnouncesFile(verb, status) ==> os.open == old(os.open)[getFd := Reading(old(os.open[getFd].bytes), 0)]
      ensures !AnnouncesFile(verb, status) ==> os.open == old(os.open)
      ensures var size := if AnnouncesFile(verb, status) then |old(os.open[getFd].bytes)| else 0;
              var text := LengthLine(BodySize(verb, status, size)) + CRLF + CRLF;
              resEnd <= 80 && resBuf[..resEnd] == old(resBuf[..resEnd]) + text
    {
      assert |StatusName(status)| <= 21;
      var bodySize := |StatusName(status)| + 1;
      if status == OK && (verb == GET || verb == HEAD) {
        bodySize := os.FileSize(getFd);
      }
      ghost var head := resBuf[..resEnd];
      Append("Content-Length: ", resBuf.Length);
      TwentyDigits(bodySize);
      AppendNumber(bodySize);
      Append("\r\n\r\n", BufLeft(resEnd, buf.Length));
      Regroup4(head, "Content-Length: ", Dec(bodySize), CRLF);
      assert "\r\n\r\n" == CRLF + CRLF;
    }

    static lemma Regroup4(a: string, b: string, c: string, d: string)
      ensures a + b + c + (d + d) == a + (b + c + d + d)
    {
    }

    method AddStaticBody()
      requires resEnd <= 80 && resBuf.Length == MAX_HEADER
      modifies this`resEnd, resBuf
      ensures resEnd <= 110 && resBuf[..resEnd] == old(resBuf[..resEnd]) + (StatusName(status) + "\n")
    {
      assert '\0' !in StatusName(status) && |StatusName(status)| <= 21;
      ghost var head := resBuf[..resEnd];
      Append(StatusName(status), BufLeft(resEnd, resBuf.Length));
      Append("\n", BufLeft(resEnd, resBuf.Length));
      assert head + StatusName(status) + "\n" == head + (StatusName(status) + "\n");
    }

    method BuildHeader(os: Os)
      requires stage == BUILD_HEADER && BuildInv(os)
      modifies this`stage, this`resEnd, resBuf, os`open
      ensures stage == SEND_RES && SendInv(os)
    {
      hide Received, LineRead, Settled, Text, FileOf, PathOf, HeaderBytes;
      Assemble(os, |FileOf(Text(os.stream, uri), os.getLookup)|);
      stage := SEND_RES;
      assert resBuf[flushed..resEnd] == resBuf[..resEnd];
    }

    /** The three parts of build_header. */
    method Assemble(os: Os, ghost size: nat)
      requires os.Valid() && resEnd == 0 && resBuf.Length == buf.Length == MAX_HEADER
      requires AnnouncesFile(verb, status) ==>
                 getFd in os.open && os.open[getFd].Reading? && |os.open[getFd].bytes| == size
      modifies this`resEnd, resBuf, os`open
      ensures os.Valid() && resEnd <= resBuf.Length && resBuf[..resEnd] == HeaderBytes(verb, status, size)
      ensures AnnouncesFile(verb, status) ==> os.open == old(os.open)[getFd := Reading(old(os.open[getFd].bytes), 0)]
      ensures !AnnouncesFile(verb, status) ==> os.open == old(os.open)
    {
      hide StatusLine, LengthLine, StatusName, BodySize;
      BuildResponseRequestLine();
      BuildResponseHeaderFields(os);
      BodySizeSame(verb, status, size);
      if status != OK || verb == PUT {
        AddStaticBody();
      }
      assert HeaderBytes(verb, status, size) == Head(verb, status, size) + StaticBody(verb, status);
    }

    /** The file size matters only where it is announced. */
    static lemma BodySizeSame(verb: Method, status: Status, size: nat)
      ensures !AnnouncesFile(verb, status) ==> BodySize(verb, status, size) == BodySize(verb, status, 0)
    {
    }

    /** The alternation of file reads and sends: every round moves part of the file. */
    ghost function Pending(os: Os): nat
      reads this`stage, this`getFd, os`open
    {
      2 * FileLeft(os) + (if stage == SEND_RES then 1 else 0)
    }

    /** How much of the file has not yet left for the response buffer. */
    ghost function FileLeft(os: Os): nat
      reads this`getFd, os`open
    {
      if getFd in os.open && os.open[getFd].Reading? && os.open[getFd].offset <= |os.open[getFd].bytes| then
        |os.open[getFd].bytes| - os.open[getFd].offset
      else 0
    }

    // ------------------------------------------------------------ sending the response

    /** One write to the socket. */
    method SendSome(os: Os) returns (r: IoResult)
      requires Answerable(os) && InTransit(os) && flushed < resEnd
      modifies this`flushed, os`clock, os`sent, os`faulted
      ensures Answerable(os) && InTransit(os) && old(os.sent) <= os.sent
      ensures r.Ready? ==> flushed > old(flushed)
      ensures r.Ready? || r.WouldBlock? ==> os.faulted == old(os.faulted)
      ensures r.Failed? ==> os.faulted
      ensures !r.Closed?
      ensures old(os.faulted) ==> os.faulted
      ensures os.clock == old(os.clock) + 1 && (r.WouldBlock? ==> os.Blocked(old(os.clock)))
      ensures Calm(os) ==> !r.Failed?
    {
      hide Received, Files, LineRead, Agreed, Built, Streamed;
      ghost var before, from := os.sent, flushed;
      r := os.WriteSocket(resBuf, flushed, resEnd);
      if r.Ready? {
        flushed := flushed + r.n;
        assert resBuf[from..resEnd] == resBuf[from..flushed] + resBuf[flushed..resEnd];
        assert before + resBuf[from..resEnd] == os.sent + resBuf[flushed..resEnd];
      }
    }

    lemma SentPrefix(os: Os)
      requires Files(os) && InTransit(os)
      ensures os.sent <= Built(os) + Streamed(os) <= Whole(os)
    {
      hide HeaderBytes, FileOf, PathOf, Text;
      var content := FileOf(Text(os.stream, uri), os.getLookup);
      assert Whole(os) == Built(os) + (if verb == GET && status == OK then content else "");
    }

    /** Sending stops early, because something failed. */
    lemma Broken(os: Os)
      requires Answerable(os) && InTransit(os) && os.faulted && stage == FINISHED
      ensures FinishInv(os)
    {
      hide Received, LineRead, Settled, Built, Streamed, Whole;
      SentPrefix(os);
    }

    /** The whole response has been sent. */
    lemma Completed(os: Os)
      requires Answerable(os) && InTransit(os) && flushed == resEnd && stage == FINISHED
      requires if verb == GET && status == OK then FileLeft(os) == 0 else true
      ensures FinishInv(os)
    {
      hide Received, LineRead, Settled;
      assert resBuf[flushed..resEnd] == "";
      assert os.sent == Built(os) + Streamed(os);
      assert Streamed(os) == if verb == GET && status == OK then FileOf(Text(os.stream, uri), os.getLookup) else "";
    }

    /** The send loop: whatever part each write takes, and wherever it is suspended, the sent
        bytes and the buffered ones together stay the same. */
    method SendRes(os: Os) returns (proceed: bool)
      requires stage == SEND_RES && SendInv(os)
      modifies this`stage, this`resEnd, this`flushed, os`clock, os`sent, os`faulted
      ensures Inv(os) && old(os.sent) <= os.sent
      ensures !proceed ==> stage == SEND_RES && os.Blocked(old(os.clock))
      ensures proceed ==> stage == READ_FILE || stage == FINISHED
      ensures os.faulted && !old(os.faulted) ==> stage == FINISHED
      ensures old(os.faulted) ==> os.faulted
      ensures os.clock >= old(os.clock) && (Calm(os) ==> os.faulted == old(os.faulted))
    {
      hide Answerable, InTransit, FinishInv, BuildInv, BodyInv, HeaderInv;
      TransitBound(os);
      while flushed != resEnd
        invariant stage == SEND_RES && Answerable(os) && InTransit(os) && old(os.sent) <= os.sent
        invariant flushed <= resEnd && os.faulted == old(os.faulted) && os.clock >= old(os.clock)
        decreases resEnd - flushed
      {
        var r := SendSome(os);
        TransitBound(os);
        if r == WouldBlock {
          return false;
        } else if r == Failed {
          stage := FINISHED;
          Broken(os);
          return true;
        }
      }
      ClearBuffer(os);
      if verb != GET || status != OK {
        stage := FINISHED;
        Completed(os);
      } else if verb == GET {
        stage := READ_FILE;
      }
      return true;
    }

    lemma TransitBound(os: Os)
      requires InTransit(os)
      ensures flushed <= resEnd
    {
    }

    /** The end of send_res: the buffer is empty again. */
    method ClearBuffer(os: Os)
      requires Answerable(os) && InTransit(os) && flushed == resEnd
      modifies this`resEnd, this`flushed
      ensures Answerable(os) && InTransit(os) && flushed == resEnd == 0
    {
      hide Received, Files, LineRead, Settled, Built, Streamed;
      assert resBuf[flushed..resEnd] == "";
      resEnd := 0;
      flushed := 0;
      assert resBuf[flushed..resEnd] == "";
    }

    /** One piece of the file goes into the response buffer. */
    method ReadGetBody(os: Os)
      requires Answerable(os) && InTransit(os) && stage == READ_FILE && flushed == resEnd == 0
      modifies this`stage, this`resEnd, resBuf, os`clock, os`faulted, os`open
      ensures Inv(os) && stage in {SEND_RES, FINISHED}
      ensures verb == GET && status == OK && stage == SEND_RES ==> FileLeft(os) < old(FileLeft(os))
      ensures verb == GET && status == OK ==> getFd != -1
      ensures os.faulted && !old(os.faulted) ==> stage == FINISHED
      ensures old(os.faulted) ==> os.faulted
      ensures os.clock >= old(os.clock) && (Calm(os) ==> os.faulted == old(os.faulted))
    {
      hide InTransit, FinishInv, BuildInv, BodyInv, HeaderInv, Shape, Received, Files, LineRead, Settled, FileLeft;
      if verb != GET || status != OK {
        stage := SEND_RES;
        return;
      }
      assert getFd != -1;
      var r := PullFile(os);
      if r == Failed {
        stage := FINISHED;
        Broken(os);
      } else if r == Closed {
        stage := FINISHED;
        Completed(os);
      } else if r.Ready? {
        stage := SEND_RES;
      }
    }

    lemma FileAtHand(os: Os)
      requires Files(os) && Shape(os) && getFd != -1
      ensures getFd in os.open && os.open[getFd].Reading? && os.open[getFd].offset <= |os.open[getFd].bytes|
    {
    }

    method PullFile(os: Os) returns (r: IoResult)
      requires Answerable(os) && InTransit(os) && flushed == resEnd == 0 && verb == GET && status == OK
      modifies this`resEnd, resBuf, os`clock, os`faulted, os`open
      ensures Answerable(os) && InTransit(os) && !r.WouldBlock?
      ensures r.Ready? ==> FileLeft(os) < old(FileLeft(os))
      ensures r.Closed? ==> FileLeft(os) == 0 && flushed == resEnd
      ensures if r.Failed? then os.faulted else os.faulted == old(os.faulted)
      ensures old(os.faulted) ==> os.faulted
      ensures os.clock == old(os.clock) + 1
      ensures !os.schedule(old(os.clock)).Error? ==> os.faulted == old(os.faulted)
    {
      hide Received, LineRead, Agreed, Built, Text, PathOf, FileOf, FilesIn, InTransit, Streamed, AnnouncesFile;
      hide Os.Valid, Masked;
      assert getFd != -1 by { Announced(os); }
      FileAtHand(os);
      assert os.sent == Built(os) + os.open[getFd].bytes[..os.open[getFd].offset] by { NothingBuffered(os); }
      ghost var was := os.open;
      r := os.ReadFile(getFd, resBuf, resEnd, BufLeft(resEnd, resBuf.Length));
      OffsetMoved(os, was);
      if r.Ready? {
        resEnd := resEnd + r.n;
      }
      Pulled(os, was[getFd].offset);
    }

    lemma Announced(os: Os)
      requires Answerable(os) && verb == GET && status == OK
      ensures getFd != -1
    {
    }

    lemma NothingBuffered(os: Os)
      requires Answerable(os) && InTransit(os) && flushed == resEnd && verb == GET && status == OK
      requires getFd in os.open && os.open[getFd].Reading?
      ensures os.sent == Built(os) + os.open[getFd].bytes[..os.open[getFd].offset]
    {
      hide Received, LineRead, Settled, Built, Text, PathOf, FileOf, FilesIn;
      assert resBuf[flushed..resEnd] == "";
    }

    lemma Pulled(os: Os, from: nat)
      requires getFd in os.open && os.open[getFd].Reading? && verb == GET && status == OK
      requires from <= os.open[getFd].offset <= |os.open[getFd].bytes|
      requires flushed == 0 && resEnd == os.open[getFd].offset - from <= resBuf.Length
      requires resBuf[0..resEnd] == os.open[getFd].bytes[from..os.open[getFd].offset]
      requires os.sent == Built(os) + os.open[getFd].bytes[..from]
      ensures InTransit(os)
    {
      hide Built;
      var bytes, to := os.open[getFd].bytes, os.open[getFd].offset;
      assert bytes[..to] == bytes[..from] + bytes[from..to];
      assert Built(os) + bytes[..from] + bytes[from..to] == Built(os) + (bytes[..from] + bytes[from..to]);
    }

    // ------------------------------------------------------------ finishing

    /** copy_view_to: the view, or as much of it as fits before `limit`. */
    method CopyViewTo(dst: array<char>, at: nat, limit: nat, v: View) returns (end: nat)
      requires at <= limit <= dst.Length && dst != buf && InView(v) && bufEnd <= buf.Length
      modifies dst
      ensures var t := Text(buf[..], v);
              end == at + Min(limit - at, |t|) && dst[..end] == old(dst[..at]) + t[..end - at]
    {
      ghost var t := Text(buf[..], v);
      if IsEmptyView(v) {
        return at;
      }
      var from := v.start;
      end := at;
      while from != v.end && end != limit
        invariant v.start <= from <= v.end && end == at + (from - v.start) <= limit
        invariant dst[..end] == old(dst[..at]) + t[..end - at]
        decreases v.end - from
      {
        ghost var done := dst[..end];
        dst[end] := buf[from];
        assert dst[..end + 1] == done + [buf[from]];
        assert t[..end + 1 - at] == t[..end - at] + [buf[from]];
        end, from := end + 1, from + 1;
      }
    }

    /** dst[..at] holds the first `at` bytes of `line`, all of them unless the buffer is full. */
    static ghost predicate Cut(dst: array<char>, at: nat, line: string)
      reads dst
    {
      at == Min(MAX_LOG, |line|) <= dst.Length && dst[..at] == line[..at]
    }

    /** Appending as much of t as fits keeps a cut line cut. */
    static lemma CutAppend(before: string, line: string, t: string, n: nat)
      requires |before| == Min(MAX_LOG, |line|) && before == line[..|before|]
      requires n == Min(MAX_LOG - |before|, |t|)
      ensures |before| + n == Min(MAX_LOG, |line + t|) && before + t[..n] == (line + t)[..|before| + n]
    {
    }

    method CutText(dst: array<char>, at: nat, str: string, ghost line: string) returns (end: nat)
      requires dst.Length == MAX_LOG && Cut(dst, at, line) && '\0' !in str
      modifies dst
      ensures Cut(dst, end, line + str)
    {
      ghost var before := dst[..at];
      end := CopyTo(dst, at, str, MAX_LOG - at);
      CutAppend(before, line, str, end - at);
    }

    method CutView(dst: array<char>, at: nat, v: View, ghost line: string) returns (end: nat)
      requires dst.Length == MAX_LOG && Cut(dst, at, line) && dst != buf && InView(v) && bufEnd <= buf.Length
      modifies dst
      ensures Cut(dst, end, line + Text(buf[..], v))
    {
      ghost var before := dst[..at];
      end := CopyViewTo(dst, at, MAX_LOG, v);
      CutAppend(before, line, Text(buf[..], v), end - at);
    }

    /** The status goes in unchecked: the record must have room for its three digits. */
    method CutStatus(dst: array<char>, at: nat, ghost line: string) returns (end: nat)
      requires dst.Length == MAX_LOG && Cut(dst, at, line) && |line| + 3 <= MAX_LOG
      modifies dst
      ensures Cut(dst, end, line + Dec(Code(status)))
    {
      CodeDigits(status);
      ghost var before := dst[..at];
      var len := MyUtoa(Code(status), dst, at);
      end := at + len;
      assert dst[..end] == dst[..][..end] == before + Dec(Code(status));
      assert line == before;
    }

    /** The record without its last byte: method, path, status and request id. */
    method FillRecord(res: array<char>) returns (out: nat)
      requires bufEnd <= buf.Length && InView(verbView) && InView(uri) && InView(id)
      requires LineFitsLog(Text(buf[..], verbView), Text(buf[..], uri))
      requires res.Length == MAX_LOG && res != buf
      modifies res
      ensures var d := Text(buf[..], id);
              Cut(res, out, Text(buf[..], verbView) + "," + Text(buf[..], uri) + "," + Dec(Code(status)) + ","
                            + (if d == "" then "0" else d))
    {
      hide Text, Cut, IsEmptyView;
      ghost var a, b, c, d := Text(buf[..], verbView), Text(buf[..], uri), Dec(Code(status)), Text(buf[..], id);
      EmptyCut(res);
      out := CutView(res, 0, verbView, "");
      assert "" + a == a;
      out := CutText(res, out, ",", a);
      out := CutView(res, out, uri, a + ",");
      out := CutText(res, out, ",", a + "," + b);
      out := CutStatus(res, out, a + "," + b + ",");
      out := CutText(res, out, ",", a + "," + b + "," + c);
      IdText();
      if IsEmptyView(id) {
        out := CutText(res, out, "0", a + "," + b + "," + c + ",");
      } else {
        out := CutView(res, out, id, a + "," + b + "," + c + ",");
      }
    }

    static lemma EmptyCut(res: array<char>)
      requires res.Length == MAX_LOG
      ensures Cut(res, 0, "")
    {
      assert res[..0] == "" == ""[..0];
    }

    lemma IdText()
      requires InView(id) && bufEnd <= buf.Length
      ensures IsEmptyView(id) <==> Text(buf[..], id) == ""
    {
    }

    /** One log line per request. */
    method SendLog(l: Logger)
      requires l.Valid() && l.buf != buf && bufEnd <= buf.Length
      requires InView(verbView) && InView(uri) && InView(id)
      requires LineFitsLog(Text(buf[..], verbView), Text(buf[..], uri))
      modifies l`head, l`written, l.buf
      ensures l.Valid()
      ensures l.Contents() == old(l.Contents())
                + LogRecord(Text(buf[..], verbView), Text(buf[..], uri), status, Text(buf[..], id))
    {
      hide Text;
      var res := new char[MAX_LOG](_ => '\0');
      var out := FillRecord(res);
      ghost var d := Text(buf[..], id);
      ghost var line := Text(buf[..], verbView) + "," + Text(buf[..], uri) + "," + Dec(Code(status)) + ","
        + (if d == "" then "0" else d);
      out := CutText(res, out, "\n", line);
      assert line + "\n" == LogLine(Text(buf[..], verbView), Text(buf[..], uri), status, d);
      l.LogBuf(res, out);
    }

    method Cleanup(os: Os)
      requires os.Valid() && Files(os)
      modifies os`open
      ensures os.Valid() && os.open == map[]
    {
      if putFd != -1 {
        os.Close(putFd);
      }
      if getFd != -1 {
        os.Close(getFd);
      }
    }

    // ------------------------------------------------------------ the state machine

    constructor ()
      ensures fresh(buf) && fresh(resBuf) && buf != resBuf && buf.Length == resBuf.Length == MAX_HEADER
    {
      buf := new char[MAX_HEADER](_ => '\0');
      resBuf := new char[MAX_HEADER](_ => '\0');
      bufEnd, parsedEnd, bodyLen, resEnd, flushed := 0, 0, 0, 0, 0;
      id, uri, verbView, verb, putFd, getFd := Invalid, Invalid, Invalid, NONE_YET, -1, -1;
      status, stage := OK, REQUEST_LINE;
      crowded, headerDone, bodyAt, contentLength := false, false, 0, 0;
    }

    /** The fresh ReqState of init_parser_state. */
    method InitRequest()
      modifies this`bufEnd, this`parsedEnd, this`bodyLen, this`id, this`uri, this`verbView, this`verb
      modifies this`putFd, this`getFd
      ensures bufEnd == parsedEnd == bodyLen == 0 && id == uri == verbView == Invalid
      ensures verb == NONE_YET && putFd == getFd == -1
    {
      bufEnd, parsedEnd, bodyLen := 0, 0, 0;
      id, uri, verbView := Invalid, Invalid, Invalid;
      verb, putFd, getFd := NONE_YET, -1, -1;
    }

    /** A request record, whatever it held before, is ready for a new connection. */
    method InitParserState(ghost os: Os)
      requires os.Valid() && os.early <= MAX_HEADER && Client(os)
      requires os.open == map[] && os.drawn == 0 && os.sent == "" && !os.faulted
      requires buf != resBuf && buf.Length == resBuf.Length == MAX_HEADER
      modifies this
      ensures stage == REQUEST_LINE && HeaderInv(os) && Rush(os)
    {
      hide HeaderInv, Client, Os.Valid, OneShot;
      stage, status := REQUEST_LINE, OK;
      InitRequest();
      resEnd, flushed := 0, 0;
      crowded, headerDone := false, false;
      Fresh(os);
    }

    lemma Fresh(os: Os)
      requires os.Valid() && os.early <= MAX_HEADER && Client(os) && !os.faulted && Untouched(os)
      requires os.drawn == bufEnd == parsedEnd == bodyLen == 0
      requires buf != resBuf && buf.Length == resBuf.Length == MAX_HEADER
      requires stage == REQUEST_LINE && status == OK && verb == NONE_YET && !crowded
      requires id == uri == verbView == Invalid && !headerDone
      ensures HeaderInv(os)
    {
      assert Abs(os.stream) == START;
      assert buf[..bufEnd] == "" == os.stream[..bufEnd];
      hide OneShot, Client;
    }

    lemma InvFacts(os: Os)
      requires Inv(os)
      ensures parsedEnd <= |os.stream| && stage != SEND_HEADER
      ensures Remaining(stage) > 2 && !crowded ==> !IsError(status)
      ensures InHeader(stage) ==> !crowded && !os.faulted
      ensures stage == READ_FILE ==> Answerable(os) && InTransit(os) && flushed == resEnd == 0
      ensures stage == READ_FILE ==> verb == GET && status == OK
      ensures Creating(os) ==> stage == READ_BODY
    {
      hide OneShot, Client, Text, Settled, Files, LineRead, Received, PutStatus, FileHolds, Untouched;
    }

    /** What a finished request leaves behind: no open file, and the whole response, which is
        the one the one-shot parse of the client's bytes leads to. */
    ghost predicate Done(os: Os)
      reads this`verb, this`status, this`uri, this`crowded, this`headerDone, this`bufEnd, this`verbView, this`id
      reads os`sent, os`faulted, os`open, os`drawn, os`stored
    {
      && os.open == map[] && Delivered(os) && Settled(os)
      && bufEnd <= os.Early() && (crowded ==> bufEnd > MAX_HEADER - 2)
    }

    /** Where the request line ends, if it is accepted and can arrive before the blank line is consumed. */
    static ghost function AcceptedLine(os: Os): Option<nat> {
      match NextLine(os.stream, 0)
      case Some(e) =>
        if e <= os.Early() && Advance(START, os.stream[..e - 2], e, os.getLookup).stage == HEADER_FIELDS then Some(e)
        else None
      case None => None
    }

    /** An eager run: everything that can arrive early is in the buffer after the first read.  If
        it leaves less than two bytes of room, the first header field meets the failing check. */
    ghost predicate Rush(os: Os)
      reads this`stage, this`bufEnd, this`parsedEnd, this`crowded, this`headerDone, os`faulted
    {
      Eager(os) ==>
        && !os.faulted
        && (bufEnd == os.Early() || (bufEnd == 0 && stage == REQUEST_LINE))
        && (os.Early() > MAX_HEADER - 2 && AcceptedLine(os).Some? ==>
              if InHeader(stage) then stage == HEADER_FIELDS ==> parsedEnd == AcceptedLine(os).value
              else Overtaken(os, crowded, headerDone))
    }

    /** The reader behind the request line was short of room. */
    static ghost predicate Overtaken(os: Os, crowded: bool, headerDone: bool)
      requires AcceptedLine(os).Some?
    {
      var e := AcceptedLine(os).value;
      crowded && (headerDone <==> e + 2 <= os.Early() && NextLine(os.stream, e) == Some(e + 2))
    }

    /** What Rush says, stage by stage. */
    lemma RushFacts(os: Os)
      requires Rush(os)
      ensures Eager(os) ==> !os.faulted && (bufEnd == os.Early() || bufEnd == 0)
      ensures Eager(os) && stage != REQUEST_LINE ==> bufEnd == os.Early()
      ensures Eager(os) && os.Early() > MAX_HEADER - 2 && AcceptedLine(os).Some? ==>
                && (stage == HEADER_FIELDS ==> parsedEnd == AcceptedLine(os).value)
                && (!InHeader(stage) ==> Overtaken(os, crowded, headerDone))
    {
    }

    lemma RushOutside(os: Os)
      requires Eager(os) ==> !os.faulted && bufEnd == os.Early()
      requires !InHeader(stage)
      requires Eager(os) && os.Early() > MAX_HEADER - 2 && AcceptedLine(os).Some? ==> Overtaken(os, crowded, headerDone)
      ensures Rush(os)
    {
    }

    lemma RushAfterLine(os: Os, before: nat)
      requires Eager(os) ==> before == 0 || before == os.Early()
      requires StaysEager(os, before) && stage != READ_BODY
      requires crowded ==> LineMissing(os) && parsedEnd == 0
      requires stage != REQUEST_LINE && !crowded && !os.faulted ==> FirstLineParsed(os)
      ensures Rush(os)
    {
      hide Eager, Advance, NextLine;
    }

    lemma RushAfterField(os: Os, from: nat)
      requires Eager(os) ==> bufEnd == os.Early() && !os.faulted
      requires Eager(os) && os.Early() > MAX_HEADER - 2 && AcceptedLine(os).Some? ==> from == AcceptedLine(os).value
      requires Eager(os) ==> (crowded <==> MAX_HEADER - bufEnd < 2)
      requires crowded ==> stage != HEADER_FIELDS
      requires stage != REQUEST_LINE && (!os.faulted ==> (headerDone <==> BlankNext(os, from)))
      ensures Rush(os)
    {
      hide Eager, Advance, NextLine;
    }

    /** One turn of the switch in handle_request, for every stage but the last.  A turn that
        asks for another one has come closer to the end: by a phase, by a header line, by a part
        of the body, by a part of the file, or by emptying the response buffer. */
    method Turn(os: Os) returns (proceed: bool)
      requires Inv(os) && stage != FINISHED
      modifies this, buf, resBuf, os
      ensures Inv(os) && (!proceed ==> stage != FINISHED)
      ensures Remaining(stage) <= Remaining(old(stage))
      ensures proceed && Remaining(stage) == Remaining(old(stage)) ==>
                && parsedEnd >= old(parsedEnd)
                && (parsedEnd == old(parsedEnd) ==>
                      && bodyLen <= old(bodyLen)
                      && (bodyLen == old(bodyLen) ==> Pending(os) < old(Pending(os))))
      ensures IsError(old(status)) && !crowded ==> status == old(status)
      ensures IsError(old(status)) && !os.faulted ==>
                (!IsError(status) <==> old(Creating(os)) && !old(Excess()))
      ensures IsError(old(status)) && !IsError(status) ==> crowded && old(Creating(os))
      ensures old(crowded) ==> crowded
      ensures old(os.faulted) ==> os.faulted
      ensures os.clock >= old(os.clock) && (!proceed ==> os.Blocked(old(os.clock)) || Starved(os))
      ensures old(InHeader(stage)) && !InHeader(stage) && !crowded && !os.faulted ==> Parsed(os)
      ensures os.faulted && !old(os.faulted) ==>
                if old(Remaining(stage)) > 2 then FailedEarly(os) && os.sent == old(os.sent)
                else stage == FINISHED && status == old(status)
      ensures Calm(os) ==> os.faulted == old(os.faulted)
      ensures old(Rush(os)) ==> Rush(os)
    {
      EagerIsCalm(os);
      hide HeaderInv, BodyInv, BuildInv, SendInv, FinishInv, Answerable, InTransit, Starved, Eager, Calm, Parsed,
        FailedEarly, Creating, Rush, Overtaken, AcceptedLine, StaysEager, LineMissing, BlankNext, FirstLineParsed,
        NextLine;
      InvFacts(os);
      ghost var rush, had, at, was := Rush(os), bufEnd, parsedEnd, stage;
      if rush {
        RushFacts(os);
      }
      proceed := true;
      match stage {
        case REQUEST_LINE => proceed := ReadRl(os);
        case HEADER_FIELDS => proceed := ReadHf(os);
        case READ_BODY => proceed := ReadRequestBody(os);
        case BUILD_HEADER => BuildHeader(os);
        case SEND_HEADER => assert false;
        case READ_FILE => ReadGetBody(os);
        case SEND_RES => proceed := SendRes(os);
        case FINISHED =>
      }
      if rush {
        match was {
          case REQUEST_LINE => RushAfterLine(os, had);
          case HEADER_FIELDS => RushAfterField(os, at);
          case _ => RushOutside(os);
        }
      }
    }

    /** Runs the request until it is finished or must wait.  What is between two calls is only
        this record, so it makes no difference which worker calls next. */
    method HandleRequest(os: Os, l: Logger) returns (done: bool)
      requires Inv(os) && l.Valid() && l.buf != buf && l.buf != resBuf
      modifies this, buf, resBuf, os, l`head, l`written, l.buf
      ensures l.Valid()
      ensures !done ==> Inv(os) && stage != FINISHED && l.Contents() == old(l.Contents())
      ensures done ==> stage == FINISHED && Done(os)
      ensures done ==>
                l.Contents() == old(l.Contents())
                  + LogRecord(Text(os.stream, verbView), Text(os.stream, uri), status, Text(os.stream, id))
      ensures Remaining(stage) <= Remaining(old(stage))
      ensures IsError(old(status)) && !crowded ==> status == old(status)
      ensures old(os.faulted) ==> os.faulted
      ensures os.clock >= old(os.clock) && (!done ==> os.Blocked(old(os.clock)) || Starved(os))
      ensures Calm(os) ==> os.faulted == old(os.faulted)
      ensures old(Rush(os)) ==> Rush(os)
    {
      hide Inv, Done, Text, Pending, IsError, Rush, Starved, Calm;
      while stage != FINISHED
        invariant Inv(os) && l.Valid() && l.Contents() == old(l.Contents())
        invariant Remaining(stage) <= Remaining(old(stage))
        invariant IsError(old(status)) && !crowded ==> status == old(status)
        invariant old(os.faulted) ==> os.faulted
        invariant os.clock >= old(os.clock) && (old(Rush(os)) ==> Rush(os))
        invariant Calm(os) ==> os.faulted == old(os.faulted)
        decreases Remaining(stage), |os.stream| - parsedEnd, bodyLen, Pending(os)
      {
        InvFacts(os);
        var proceed := Turn(os);
        InvFacts(os);
        if !proceed {
          return false;
        }
      }
      assert FinishInv(os) by { AtFinish(os); }
      Finish(os, l);
      return true;
    }

    lemma AtFinish(os: Os)
      requires Inv(os) && stage == FINISHED
      ensures FinishInv(os)
    {
    }

    /** The FINISHED stage: one log line, and every file that was opened is closed. */
    method Finish(os: Os, l: Logger)
      requires stage == FINISHED && FinishInv(os) && l.Valid() && l.buf != buf
      modifies os`open, l`head, l`written, l.buf
      ensures Done(os) && l.Valid()
      ensures l.Contents() == old(l.Contents())
                + LogRecord(Text(os.stream, verbView), Text(os.stream, uri), status, Text(os.stream, id))
    {
      hide Text, Delivered, Settled;
      ReceivedPrefix(os);
      TextAgrees(buf[..], os.stream, verbView);
      TextAgrees(buf[..], os.stream, uri);
      TextAgrees(buf[..], os.stream, id);
      SendLog(l);
      Cleanup(os);
    }
  }
}
