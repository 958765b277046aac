/** Requests and answers byte for byte: what a client that sends these bytes gets back, under any
    ordinary schedule, and what becomes of its file. */
module Requests {
  import opened Types
  import opened Helpers
  import opened StrView
  import opened Parser
  import opened Kernel
  import opened Response
  import opened Server
  import opened Log
  import opened EndToEnd

  /** The bytes of a request: m, one space, a slash and the name, spaces, HTTP/1.1, spaces, then the
      lines, a blank one, and the body. */
  function RequestBytes(m: string, name: string, a: nat, b: nat, lines: seq<string>, body: string): string {
    m + " /" + name + Spaces(a) + "HTTP/1.1" + Spaces(b) + "\r\n" + RenderLines(lines) + "\r\n" + body
  }

  lemma BytesRendered(m: string, name: string, a: nat, b: nat, lines: seq<string>, body: string)
    ensures RequestBytes(m, name, a, b, lines, body) == RenderHeader(m, "/" + name, a, b, lines) + body
  {
    hide RenderLines;
    SlashSplit(m, name);
  }

  lemma SlashSplit(m: string, name: string)
    ensures m + " /" + name == m + " " + ("/" + name)
  {
    assert " /" == " " + "/";
    assert m + (" " + "/") + name == m + " " + ("/" + name);
  }

  predicate Sound(lines: seq<string>) {
    forall k | 0 <= k < |lines| :: FieldLine(lines[k]) && !Rejected(lines[k])
  }

  lemma NamePath(name: string)
    requires FileName(name)
    ensures ValidPath("/" + name) && PathOf("/" + name) == name && |"/" + name| == |name| + 1
  {
    ValidPathExactly("/" + name);
    assert ("/" + name)[1..] == name;
  }

  lemma ThreeMethods()
    ensures MethodOf("GET") == GET && MethodOf("PUT") == PUT && MethodOf("HEAD") == HEAD
  {
  }

  /** The one-shot parse of such a request up to its blank line. */
  lemma HeaderRead(m: string, name: string, a: nat, b: nat, lines: seq<string>, body: string, get: string -> GetAnswer)
    returns (q: Parse)
    requires m in {"GET", "PUT", "HEAD"} && FileName(name) && a >= 1 && Sound(lines)
    ensures q == ApplyLines(LineParsed(m, "/" + name, a, b), lines)
    ensures q.status == OK && q.verb == MethodOf(m) && q.verbText == m && q.uri == "/" + name
    ensures q.pos + 2 == |RenderHeader(m, "/" + name, a, b, lines)|
    ensures OneShot(RequestBytes(m, name, a, b, lines, body), START, get)
            == EndOfHeader(q.(pos := q.pos + 2), get)
  {
    var p := LineParsed(m, "/" + name, a, b);
    NamePath(name);
    ThreeMethods();
    BytesRendered(m, name, a, b, lines, body);
    hide RequestBytes;
    hide ApplyLines, EndOfHeader, RenderHeader, OneShot, MethodOf, ValidPath, Rejected, FieldLine, RenderLine;
    q := ApplyLines(p, lines);
    RenderParse(m, "/" + name, a, b, lines, body, get);
    LinesRejectedExactly(p, lines);
    ApplyLinesPos(p, lines);
  }

  /** What GET and HEAD find behind a name. */
  function Found(name: string, get: string -> GetAnswer): Status {
    if |name| >= 299 then BAD_REQUEST
    else match get(name) case Content(_) => OK case Missing => NOT_FOUND case _ => FORBIDDEN
  }

  lemma LookupEnds(p: Parse, name: string, get: string -> GetAnswer)
    requires p.uri == "/" + name && PathOf(p.uri) == name && p.status == OK && (p.verb == GET || p.verb == HEAD)
    ensures var q := EndOfHeader(p, get);
            && q.stage == BUILD_HEADER && q.status == Found(name, get) && q.verb == p.verb && q.uri == p.uri
            && q.verbText == p.verbText && q.id == p.id
  {
    assert |p.uri| == |name| + 1;
  }

  /** The answer to GET and HEAD. */
  function FileAnswer(m: string, name: string, get: string -> GetAnswer): string {
    if Found(name, get) != OK then Reply(Found(name, get))
    else if m == "GET" then FileReply(get(name).bytes)
    else Top("200", "OK", Dec(|get(name).bytes|))
  }

  lemma FileAnswerIs(m: string, name: string, get: string -> GetAnswer, file: string)
    requires m == "GET" || m == "HEAD"
    requires Found(name, get) == OK ==> get(name).Content? && file == get(name).bytes
    ensures FullResponse(MethodOf(m), Found(name, get), file) == FileAnswer(m, name, get)
  {
    ThreeMethods();
    if Found(name, get) != OK {
      hide FullResponse, Reply;
      ReplyExactly(MethodOf(m), Found(name, get), file);
    } else {
      hide FullResponse, Top;
      FileReplyExactly(file);
      assert FileReply(file)[..|FullResponse(HEAD, OK, file)|] == FullResponse(HEAD, OK, file);
      assert FileReply(file)[..|Top("200", "OK", Dec(|file|))|] == Top("200", "OK", Dec(|file|));
    }
  }

  lemma FileAnswered(s: State, os: Os, m: string, name: string, a: nat, b: nat, lines: seq<string>, body: string)
    requires Answered(s, os) && os.stream == RequestBytes(m, name, a, b, lines, body)
    requires (m == "GET" || m == "HEAD") && FileName(name) && a >= 1 && Sound(lines)
    ensures os.sent == FileAnswer(m, name, os.getLookup) && s.status == Found(name, os.getLookup)
    ensures Text(os.stream, s.verbView) == m && Text(os.stream, s.uri) == "/" + name
    ensures Text(os.stream, s.id) == ApplyLines(LineParsed(m, "/" + name, a, b), lines).id
  {
    var q := HeaderRead(m, name, a, b, lines, body, os.getLookup);
    NamePath(name);
    ThreeMethods();
    LookupEnds(q.(pos := q.pos + 2), name, os.getLookup);
    hide OneShot, EndOfHeader, FullResponse, FileAnswer, RequestBytes, Sound, Text, PathOf;
    FileAnswerIs(m, name, os.getLookup, FileOf("/" + name, os.getLookup));
  }

  /** A GET or HEAD for a name, with any sound lines: 200 with the file, which HEAD announces and
      does not send, 404 for a missing file, 403 for any other failure, 400 for a name of 299 bytes
      or more. */
  method ServeFile(s: State, os: Os, l: Logger, calls: nat, ghost most: nat,
                   ghost m: string, ghost name: string, ghost a: nat, ghost b: nat, ghost lines: seq<string>,
                   ghost body: string)
    returns (done: bool)
    requires NewConnection(s, os, l) && Ordinary(os) && os.stream == RequestBytes(m, name, a, b, lines, body)
    requires (m == "GET" || m == "HEAD") && FileName(name) && a >= 1 && Sound(lines)
    modifies s, s.buf, s.resBuf, os, l`head, l`written, l.buf
    ensures CallsSuffice(os, old(os.clock), calls, most) ==> done
    ensures done ==> os.sent == FileAnswer(m, name, os.getLookup)
    ensures done ==>
              l.Valid() && l.Contents() == old(l.Contents())
                + LogRecord(m, "/" + name, Found(name, os.getLookup),
                            ApplyLines(LineParsed(m, "/" + name, a, b), lines).id)
  {
    hide State.Done, State.Inv, State.Rush, CallsSuffice, LogRecord, NewConnection, Ordinary, Answered, Text;
    hide RequestBytes, Sound, FileAnswer, FileName, Framed, ApplyLines, LineParsed, Found;
    done := Serve(s, os, l, calls, most);
    if done {
      FileAnswered(s, os, m, name, a, b, lines, body);
    }
  }

  // ---------------------------------------------------------------- PUT

  /** A PUT of these bytes, announced by the last of its lines. */
  function PutBytes(name: string, a: nat, b: nat, before: seq<string>, body: string): string {
    RequestBytes("PUT", name, a, b, before + ["Content-Length:" + Dec(|body|)], body)
  }

  /** How a PUT is answered. */
  function Kept(name: string, put: string -> PutAnswer): Status {
    if |name| >= 299 then INTERNAL_ERROR
    else match put(name) case Truncates => OK case Creates => CREATED case _ => FORBIDDEN
  }

  lemma {:induction false} ApplyLinesSnoc(p: Parse, lines: seq<string>, last: string)
    requires ApplyLines(p, lines).stage == HEADER_FIELDS
    ensures ApplyLines(p, lines + [last]) == LineDone(ApplyLines(p, lines), last)
    decreases |lines|
  {
    hide ParseHf;
    if lines == [] {
      assert ([] + [last])[1..] == [];
    } else if p.stage == HEADER_FIELDS {
      assert (lines + [last])[1..] == lines[1..] + [last];
      ApplyLinesSnoc(LineDone(p, lines[0]), lines[1..], last);
    }
  }

  /** The last RequestID is the id that is logged. */
  lemma LastIdCounts(p: Parse, lines: seq<string>, value: string)
    requires ApplyLines(p, lines).stage == HEADER_FIELDS
    ensures ApplyLines(p, lines + ["RequestID:" + value]).id == Trim(value)
  {
    ApplyLinesSnoc(p, lines, "RequestID:" + value);
    hide ApplyLines, ParseHf, Trim;
    RequestIdRead(ApplyLines(p, lines), value);
  }

  lemma LengthLineSound(n: nat)
    requires n < TWO_63
    ensures var line := "Content-Length:" + Dec(n);
            FieldLine(line) && !Rejected(line) && forall p :: ParseHf(p, line) == p.(bodyLen := n)
  {
    var line := "Content-Length:" + Dec(n);
    LengthText(Dec(n));
    WrapExact(n);
    assert '\r' !in "Content-Length:";
    PlainIsOneLine(line);
    hide Dec, Rejected, ParseHf, Wrap64, OneLine, RenderField;
    LengthField(START, n);
    forall p ensures ParseHf(p, line) == p.(bodyLen := n) {
      LengthField(p, n);
    }
  }

  lemma PutRead(name: string, a: nat, b: nat, before: seq<string>, body: string, get: string -> GetAnswer)
    requires FileName(name) && a >= 1 && Sound(before) && |body| < TWO_63
    ensures var stream := PutBytes(name, a, b, before, body);
            var p := OneShot(stream, START, get);
            && p.stage == READ_BODY && p.verb == PUT && p.status == OK && p.uri == "/" + name
            && p.bodyLen == |body| && p.pos + |body| == |stream| && stream[p.pos..p.pos + |body|] == body
  {
    var header := PutParsed(name, a, b, before, body, get);
    hide OneShot, PutBytes;
    Behind(header, body);
  }

  lemma PutParsed(name: string, a: nat, b: nat, before: seq<string>, body: string, get: string -> GetAnswer)
    returns (header: string)
    requires FileName(name) && a >= 1 && Sound(before) && |body| < TWO_63
    ensures PutBytes(name, a, b, before, body) == header + body
    ensures var p := OneShot(PutBytes(name, a, b, before, body), START, get);
            && p.stage == READ_BODY && p.verb == PUT && p.status == OK && p.uri == "/" + name
            && p.bodyLen == |body| && p.pos == |header|
  {
    var lines := before + ["Content-Length:" + Dec(|body|)];
    assert Sound(lines) by { LengthLineSound(|body|); }
    header := RenderHeader("PUT", "/" + name, a, b, lines);
    PutHeader(name, a, b, before, |body|);
    ThreeMethods();
    hide OneShot, ApplyLines, RenderHeader, RequestBytes, Sound, FileName, LineParsed, MethodOf, Dec;
    BytesRendered("PUT", name, a, b, lines, body);
    var q := HeaderRead("PUT", name, a, b, lines, body, get);
  }

  lemma Behind(header: string, body: string)
    ensures (header + body)[|header|..|header| + |body|] == body
  {
  }

  lemma PutHeader(name: string, a: nat, b: nat, before: seq<string>, n: nat)
    requires Sound(before) && n < TWO_63
    ensures ApplyLines(LineParsed("PUT", "/" + name, a, b), before + ["Content-Length:" + Dec(n)]).bodyLen == n
  {
    LengthLineSound(n);
    hide Rejected, FieldLine, ParseHf, ApplyLines, RenderLine, MethodOf, Dec;
    var p := LineParsed("PUT", "/" + name, a, b);
    LinesRejectedExactly(p, before);
    ApplyLinesSnoc(p, before, "Content-Length:" + Dec(n));
  }

  lemma PutAnsweredBytes(s: State, os: Os, name: string, a: nat, b: nat, before: seq<string>, body: string)
    requires s.Done(os) && Answered(s, os) && os.stream == PutBytes(name, a, b, before, body)
    requires FileName(name) && a >= 1 && Sound(before) && |body| < TWO_63
    ensures os.sent == Reply(Kept(name, os.putLookup)) && s.status == Kept(name, os.putLookup)
    ensures !IsError(s.status) ==> name in os.stored && os.stored[name] == body && os.drawn == |os.stream|
  {
    NamePath(name);
    hide OneShot, PutBytes, FullResponse, Reply, State.Done, Text, PathOf, Sound, FileName, ValidPath;
    PutRead(name, a, b, before, body, os.getLookup);
    NoExcess(s, os);
    PutKept(name, os.putLookup);
    hide PutStatus, Kept;
    var p := OneShot(os.stream, START, os.getLookup);
    ReplyExactly(PUT, Kept(name, os.putLookup), FileOf(p.uri, os.getLookup));
  }

  lemma PutKept(name: string, put: string -> PutAnswer)
    requires PathOf("/" + name) == name
    ensures PutStatus("/" + name, false, put) == Kept(name, put)
  {
    assert |"/" + name| == |name| + 1;
  }

  /** A PUT that announces its body, with any sound lines in front: the file is exactly the body, and
      201 or 200 is sent; or 403 when the file cannot be opened, or 500 for a name of 299 bytes or
      more. */
  method ServePut(s: State, os: Os, l: Logger, calls: nat, ghost most: nat,
                  ghost name: string, ghost a: nat, ghost b: nat, ghost before: seq<string>, ghost body: string)
    returns (done: bool)
    requires NewConnection(s, os, l) && Ordinary(os) && os.stream == PutBytes(name, a, b, before, body)
    requires FileName(name) && a >= 1 && Sound(before) && |body| < TWO_63
    modifies s, s.buf, s.resBuf, os, l`head, l`written, l.buf
    ensures CallsSuffice(os, old(os.clock), calls, most) ==> done
    ensures done ==> os.sent == Reply(Kept(name, os.putLookup))
    ensures done && Kept(name, os.putLookup) in {OK, CREATED} ==>
              name in os.stored && os.stored[name] == body && os.drawn == |os.stream|
  {
    hide State.Done, State.Inv, State.Rush, CallsSuffice, LogRecord, NewConnection, Ordinary, Answered, Text;
    hide PutBytes, Sound, FileName, Framed, Reply, Kept;
    done := Serve(s, os, l, calls, most);
    if done {
      PutAnsweredBytes(s, os, name, a, b, before, body);
    }
  }

  // ---------------------------------------------------------------- refused requests

  /** The grammar of a request line, written out. */
  ghost predicate InGrammar(line: string) {
    exists m: string, name: string, a: nat, b: nat ::
      m in {"GET", "PUT", "HEAD"} && FileName(name) && a >= 1 &&
      line == m + " /" + name + Spaces(a) + "HTTP/1.1" + Spaces(b)
  }

  lemma GrammarExactly(line: string)
    ensures InGrammar(line) <==> ParseRl(START, line).stage == HEADER_FIELDS
  {
    hide InGrammar;
    if ParseRl(START, line).stage == HEADER_FIELDS {
      AcceptedInLanguage(START, line);
      InLanguageIsInGrammar(line, ParseRl(START, line).verb, ParseRl(START, line).uri);
    }
    if InGrammar(line) {
      InGrammarIsAccepted(line);
    }
  }

  lemma InLanguageIsInGrammar(line: string, verb: Method, uri: string)
    requires RequestLine(line, verb, uri)
    ensures InGrammar(line)
  {
    var m: string, a: nat, b: nat :|
      a >= 1 && MethodOf(m) == verb && verb != UNKNOWN && ValidPath(uri) && line == RenderLine(m, uri, a, b);
    hide RenderLine, InGrammar;
    InWords(m, uri, a, b);
  }

  lemma InGrammarIsAccepted(line: string)
    requires InGrammar(line)
    ensures ParseRl(START, line).stage == HEADER_FIELDS
  {
    var m: string, name: string, a: nat, b: nat :|
      m in {"GET", "PUT", "HEAD"} && FileName(name) && a >= 1 &&
      line == m + " /" + name + Spaces(a) + "HTTP/1.1" + Spaces(b);
    SlashSplit(m, name);
    assert line == RenderLine(m, "/" + name, a, b);
    NamePath(name);
    ThreeMethods();
    hide ParseRl, RenderLine, MethodOf, ValidPath, FileName;
    ParseRendered(START, m, "/" + name, a, b);
  }

  lemma InWords(m: string, uri: string, a: nat, b: nat)
    requires a >= 1 && MethodOf(m) != UNKNOWN && ValidPath(uri)
    ensures InGrammar(RenderLine(m, uri, a, b))
  {
    var name := uri[1..];
    ValidPathExactly(uri);
    assert uri == "/" + name;
    SlashSplit(m, name);
    assert RenderLine(m, uri, a, b) == m + " /" + name + Spaces(a) + "HTTP/1.1" + Spaces(b);
  }

  lemma RefusedLineRead(line: string, more: string, get: string -> GetAnswer)
    requires OneLine(line) && !InGrammar(line)
    ensures var p := OneShot(line + "\r\n" + more, START, get);
            p.stage == BUILD_HEADER && p.status == if OtherMethod(line) then NOT_IMPLEMENTED else BAD_REQUEST
  {
    var stream := line + "\r\n" + more;
    GrammarExactly(line);
    RefusedLineExactly(START, line);
    hide OneShot, ParseRl, OtherMethod, OneLine, InGrammar;
    assert stream == (line + CRLF) + more;
    assert HoldsAt(stream, 0, line + CRLF);
    OneShotLine(stream, START, line, get);
    OneShotFails(stream, Advance(START, line, |line| + 2, get), get);
  }

  /** A first line outside the grammar is answered with 501 exactly if it starts with another method
      name, and with 400 otherwise. */
  method ServeRefused(s: State, os: Os, l: Logger, calls: nat, ghost most: nat, ghost line: string, ghost more: string)
    returns (done: bool)
    requires NewConnection(s, os, l) && Ordinary(os) && os.stream == line + "\r\n" + more
    requires OneLine(line) && !InGrammar(line)
    modifies s, s.buf, s.resBuf, os, l`head, l`written, l.buf
    ensures CallsSuffice(os, old(os.clock), calls, most) ==> done
    ensures done ==> os.sent == Reply(if OtherMethod(line) then NOT_IMPLEMENTED else BAD_REQUEST)
  {
    hide State.Done, State.Inv, State.Rush, CallsSuffice, LogRecord, NewConnection, Ordinary, Answered, Text;
    hide OneLine, InGrammar, OtherMethod, Framed, Reply, OneShot;
    done := Serve(s, os, l, calls, most);
    if done {
      RefusedLineRead(line, more, os.getLookup);
      ErrorSent(s, os);
    }
  }

  /** What is answered when the header ends in an error. */
  lemma ErrorSent(s: State, os: Os)
    requires Answered(s, os)
    requires var p := OneShot(os.stream, START, os.getLookup); p.stage == BUILD_HEADER && IsError(p.status)
    ensures os.sent == Reply(OneShot(os.stream, START, os.getLookup).status)
  {
    hide OneShot, FullResponse, Reply, Text;
    var p := OneShot(os.stream, START, os.getLookup);
    ReplyExactly(p.verb, p.status, FileOf(p.uri, os.getLookup));
  }

  lemma RefusedHeaderRead(m: string, name: string, a: nat, b: nat, lines: seq<string>, k: nat, body: string,
                          get: string -> GetAnswer)
    requires m in {"GET", "PUT", "HEAD"} && FileName(name) && a >= 1
    requires (forall i | 0 <= i < |lines| :: FieldLine(lines[i])) && k < |lines| && Rejected(lines[k])
    ensures var p := OneShot(RequestBytes(m, name, a, b, lines, body), START, get);
            p.stage == BUILD_HEADER && p.status == BAD_REQUEST
  {
    var p := LineParsed(m, "/" + name, a, b);
    NamePath(name);
    ThreeMethods();
    BytesRendered(m, name, a, b, lines, body);
    hide RequestBytes;
    hide ApplyLines, EndOfHeader, RenderHeader, OneShot, MethodOf, ValidPath, Rejected, FieldLine, RenderLine;
    RenderParse(m, "/" + name, a, b, lines, body, get);
    LinesRejectedExactly(p, lines);
  }

  /** A header with a line that has no colon, or a length that is no number, is answered with 400. */
  method ServeBadHeader(s: State, os: Os, l: Logger, calls: nat, ghost most: nat,
                        ghost m: string, ghost name: string, ghost a: nat, ghost b: nat, ghost lines: seq<string>,
                        ghost k: nat, ghost body: string)
    returns (done: bool)
    requires NewConnection(s, os, l) && Ordinary(os) && os.stream == RequestBytes(m, name, a, b, lines, body)
    requires m in {"GET", "PUT", "HEAD"} && FileName(name) && a >= 1
    requires (forall i | 0 <= i < |lines| :: FieldLine(lines[i])) && k < |lines| && Rejected(lines[k])
    modifies s, s.buf, s.resBuf, os, l`head, l`written, l.buf
    ensures CallsSuffice(os, old(os.clock), calls, most) ==> done
    ensures done ==> os.sent == Reply(BAD_REQUEST)
  {
    hide State.Done, State.Inv, State.Rush, CallsSuffice, LogRecord, NewConnection, Ordinary, Answered, Text;
    hide RequestBytes, FileName, Framed, Reply, FieldLine, Rejected;
    done := Serve(s, os, l, calls, most);
    if done {
      RefusedHeaderRead(m, name, a, b, lines, k, body, os.getLookup);
      ErrorSent(s, os);
    }
  }
}
