/** The bytes of a response: what build_header assembles, and what a client reads out of it. */
module Response {
  import opened Types
  import opened Helpers
  import opened StrView

  function StatusName(status: Status): string {
    match status
    case OK => "OK"
    case CREATED => "Created"
    case BAD_REQUEST => "Bad Request"
    case FORBIDDEN => "Forbidden"
    case NOT_FOUND => "Not Found"
    case INTERNAL_ERROR => "Internal Server Error"
    case NOT_IMPLEMENTED => "Not Implemented"
  }

  /** GET and HEAD requests that succeed announce the size of a file. */
  predicate AnnouncesFile(verb: Method, status: Status) {
    status == OK && (verb == GET || verb == HEAD)
  }

  /** Errors and PUT answers carry the name of their status as a body. */
  predicate HasStaticBody(verb: Method, status: Status) {
    status != OK || verb == PUT
  }

  function StatusLine(status: Status): string {
    "HTTP/1.1 " + Dec(Code(status)) + " " + StatusName(status)
  }

  function LengthLine(n: nat): string {
    "Content-Length: " + Dec(n)
  }

  function BodySize(verb: Method, status: Status, fileSize: nat): nat {
    if AnnouncesFile(verb, status) then fileSize else |StatusName(status)| + 1
  }

  function StaticBody(verb: Method, status: Status): string {
    if HasStaticBody(verb, status) then StatusName(status) + "\n" else ""
  }

  /** The two header lines and the blank line. */
  function Head(verb: Method, status: Status, fileSize: nat): string {
    StatusLine(status) + CRLF + (LengthLine(BodySize(verb, status, fileSize)) + CRLF + CRLF)
  }

  /** Everything build_header leaves in the response buffer. */
  function HeaderBytes(verb: Method, status: Status, fileSize: nat): string {
    Head(verb, status, fileSize) + StaticBody(verb, status)
  }

  /** The whole response to a request whose file, if it has one, holds `content`. */
  function FullResponse(verb: Method, status: Status, content: string): string {
    HeaderBytes(verb, status, |content|) + (if verb == GET && status == OK then content else "")
  }

  /** The bytes behind the blank line. */
  function ResponseBody(verb: Method, status: Status, content: string): string {
    StaticBody(verb, status) + (if verb == GET && status == OK then content else "")
  }

  lemma CodeDigits(status: Status)
    ensures Dec(Code(status)) ==
            match status
            case OK => "200"
            case CREATED => "201"
            case BAD_REQUEST => "400"
            case FORBIDDEN => "403"
            case NOT_FOUND => "404"
            case INTERNAL_ERROR => "500"
            case NOT_IMPLEMENTED => "501"
  {
    var n := Code(status);
    assert Dec(n) == Dec(n / 10) + [Digit(n % 10)];
    assert Dec(n / 10) == Dec(n / 10 / 10) + [Digit(n / 10 % 10)];
  }

  lemma StatusLineShape(status: Status)
    ensures |Dec(Code(status))| == 3 && |StatusLine(status)| <= 34 && '\r' !in StatusLine(status)
  {
    CodeDigits(status);
    assert '\r' !in StatusName(status) && |StatusName(status)| <= 21;
  }

  lemma LengthLineShape(n: nat)
    requires n < TWO_64
    ensures 17 <= |LengthLine(n)| <= 36 && '\r' !in LengthLine(n)
  {
    TwentyDigits(n);
    assert '\r' !in "Content-Length: ";
  }

  /** For every method and status the built header fits the response buffer. */
  lemma HeaderFits(verb: Method, status: Status, fileSize: nat)
    requires fileSize < TWO_63
    ensures |HeaderBytes(verb, status, fileSize)| <= 100 < MAX_HEADER
  {
    StatusLineShape(status);
    assert |StatusName(status)| <= 21;
    LengthLineShape(BodySize(verb, status, fileSize));
  }

  /** The announced number and the number of bytes behind the blank line agree, except that
      HEAD with status OK announces the file and sends nothing. */
  lemma DeclaredLength(verb: Method, status: Status, content: string)
    requires status != OK || verb in {GET, PUT, HEAD}
    ensures var declared := BodySize(verb, status, |content|);
            var sent := |ResponseBody(verb, status, content)|;
            if verb == HEAD && status == OK then declared == |content| && sent == 0 else declared == sent
  {
  }

  /** The bytes in front of the body. */
  function Top(code: string, name: string, n: string): string {
    "HTTP/1.1 " + code + " " + name + "\r\n" + ("Content-Length: " + n + "\r\n" + "\r\n")
  }

  /** The whole answer that needs no file, byte for byte. */
  function Reply(status: Status): string {
    match status
    case OK => Top("200", "OK", "3") + "OK\n"
    case CREATED => Top("201", "Created", "8") + "Created\n"
    case BAD_REQUEST => Top("400", "Bad Request", "12") + "Bad Request\n"
    case FORBIDDEN => Top("403", "Forbidden", "10") + "Forbidden\n"
    case NOT_FOUND => Top("404", "Not Found", "10") + "Not Found\n"
    case INTERNAL_ERROR => Top("500", "Internal Server Error", "22") + "Internal Server Error\n"
    case NOT_IMPLEMENTED => Top("501", "Not Implemented", "16") + "Not Implemented\n"
  }

  /** The answer with a file, byte for byte. */
  function FileReply(content: string): string {
    Top("200", "OK", Dec(|content|)) + content
  }

  lemma HeadIsTop(verb: Method, status: Status, size: nat)
    ensures Head(verb, status, size) ==
            Top(Dec(Code(status)), StatusName(status), Dec(BodySize(verb, status, size)))
  {
    hide Dec, Code, StatusName, BodySize;
  }

  lemma ReplyExactly(verb: Method, status: Status, content: string)
    requires status != OK || verb == PUT
    ensures FullResponse(verb, status, content) == Reply(status)
  {
    HeadIsTop(verb, status, |content|);
    CodeDigits(status);
    ReplyLength(status);
    assert BodySize(verb, status, |content|) == |StatusName(status)| + 1;
    assert StaticBody(verb, status) == StatusName(status) + "\n";
    assert FullResponse(verb, status, content) == Head(verb, status, |content|) + StaticBody(verb, status);
    hide Top, Head, FullResponse, Dec, Code, StaticBody, BodySize;
    ReplyName(status);
  }

  lemma ReplyName(status: Status)
    ensures StatusName(status) + "\n" ==
            match status
            case OK => "OK\n"
            case CREATED => "Created\n"
            case BAD_REQUEST => "Bad Request\n"
            case FORBIDDEN => "Forbidden\n"
            case NOT_FOUND => "Not Found\n"
            case INTERNAL_ERROR => "Internal Server Error\n"
            case NOT_IMPLEMENTED => "Not Implemented\n"
  {
  }

  lemma ReplyLength(status: Status)
    ensures Dec(|StatusName(status)| + 1) ==
            match status
            case OK => "3"
            case CREATED => "8"
            case BAD_REQUEST => "12"
            case FORBIDDEN => "10"
            case NOT_FOUND => "10"
            case INTERNAL_ERROR => "22"
            case NOT_IMPLEMENTED => "16"
  {
    var n := |StatusName(status)| + 1;
    assert n >= 10 ==> Dec(n) == Dec(n / 10) + [Digit(n % 10)];
  }

  lemma FileReplyExactly(content: string)
    ensures FullResponse(GET, OK, content) == FileReply(content)
    ensures FullResponse(HEAD, OK, content) + content == FileReply(content)
  {
    HeadIsTop(GET, OK, |content|);
    HeadIsTop(HEAD, OK, |content|);
    CodeDigits(OK);
    hide Top, Head, Dec;
    assert HeaderBytes(GET, OK, |content|) == Head(GET, OK, |content|) + "" == Head(GET, OK, |content|);
    assert HeaderBytes(HEAD, OK, |content|) == Head(HEAD, OK, |content|) + "" == Head(HEAD, OK, |content|);
    assert FullResponse(HEAD, OK, content) == HeaderBytes(HEAD, OK, |content|) + "";
  }

  /** What a client makes of an answer, line by line: the number behind "Content-Length:" on the
      second line, and everything behind the blank third line. */
  function Announced(sent: string): Option<int> {
    match ScanAt(sent, 0, |sent|, CRLF, 0)
    case None => None
    case Some(a) =>
      match ScanAt(sent, a, |sent|, CRLF, 0)
      case None => None
      case Some(b) =>
        if a + 15 <= b - 2 && sent[a..a + 15] == "Content-Length:" then Some(Number(Trim(sent[a + 15..b - 2])))
        else None
  }

  function Body(sent: string): Option<string> {
    match ScanAt(sent, 0, |sent|, CRLF, 0)
    case None => None
    case Some(a) =>
      match ScanAt(sent, a, |sent|, CRLF, 0)
      case None => None
      case Some(b) =>
        match ScanAt(sent, b, |sent|, CRLF, 0)
        case None => None
        case Some(c) => if c == b + 2 then Some(sent[c..]) else None
  }

  /** Over the bytes: what is announced is what follows, but for HEAD with status OK. */
  ghost predicate Framed(sent: string, verb: Method, status: Status, file: string) {
    && Announced(sent).Some? && Body(sent).Some?
    && if verb == HEAD && status == OK then Announced(sent).value == |file| && Body(sent).value == ""
       else Announced(sent).value == |Body(sent).value|
  }

  lemma FullResponseFramed(verb: Method, status: Status, content: string)
    requires |content| < TWO_63 && (status != OK || verb in {GET, PUT, HEAD})
    ensures Framed(FullResponse(verb, status, content), verb, status, content)
  {
    DeclaredLength(verb, status, content);
    hide FullResponse, BodySize, ResponseBody, Announced, Body;
    ResponseParts(verb, status, content);
  }

  lemma ResponseParts(verb: Method, status: Status, content: string)
    requires |content| < TWO_63
    ensures Announced(FullResponse(verb, status, content)) == Some(BodySize(verb, status, |content|))
    ensures Body(FullResponse(verb, status, content)) == Some(ResponseBody(verb, status, content))
  {
    var first, n := StatusLine(status), BodySize(verb, status, |content|);
    var second, s := LengthLine(n), FullResponse(verb, status, content);
    hide FullResponse, StatusLine, LengthLine, BodySize, ResponseBody, Announced, Body, InParts, LengthIs;
    ClientReads(verb, status, content);
    DecodesBehindPrefix(verb, status, content);
    Parts(s, first, second, ResponseBody(verb, status, content), n);
  }

  lemma DecodesBehindPrefix(verb: Method, status: Status, content: string)
    requires |content| < TWO_63
    ensures LengthIs(LengthLine(BodySize(verb, status, |content|)), BodySize(verb, status, |content|))
  {
    LengthPrefix(BodySize(verb, status, |content|));
    hide LengthLine, BodySize, Trim, Number;
    ClientDecodesLength(verb, status, content);
  }

  predicate LengthIs(line: string, n: nat) {
    |line| > 15 && line[..15] == "Content-Length:" && Number(Trim(line[15..])) == n
  }

  lemma LengthPrefix(n: nat)
    ensures |LengthLine(n)| > 15 && LengthLine(n)[..15] == "Content-Length:" && |"Content-Length:"| == 15
  {
  }

  lemma Parts(s: string, first: string, second: string, body: string, n: nat)
    requires InParts(s, first, second, body)
    requires LengthIs(second, n)
    ensures Announced(s) == Some(n) && Body(s) == Some(body)
  {
    hide Trim, Number, ScanAt;
    var a := |first| + 2;
    var b := a + |second| + 2;
    assert s[a..a + 15] == s[a..b - 2][..15];
    assert s[a + 15..b - 2] == s[a..b - 2][15..];
  }

  predicate LineIs(s: string, pos: nat, line: string, next: nat) {
    && pos <= next <= |s| && next == pos + |line| + 2
    && ScanAt(s, pos, |s|, CRLF, 0) == Some(next)
    && s[pos..next - 2] == line
  }

  /** Three lines, the third of them blank, and the rest. */
  predicate InParts(s: string, first: string, second: string, body: string) {
    var a := |first| + 2;
    var b := a + |second| + 2;
    LineIs(s, 0, first, a) && LineIs(s, a, second, b) && LineIs(s, b, "", b + 2) && s[b + 2..] == body
  }

  lemma ReadLine(pre: string, line: string, post: string)
    requires '\r' !in line
    ensures LineIs(pre + line + CRLF + post, |pre|, line, |pre| + |line| + 2)
  {
    var s := pre + line + CRLF + post;
    var n := |pre| + |line|;
    assert s == pre + (line + (CRLF + post));
    assert s[|pre|..] == line + (CRLF + post);
    assert s[|pre|..n] == line;
    assert s[n..] == CRLF + post;
    assert s[n] == s[n..][0] && s[n + 1] == s[n..][1];
    ScanPlainLine(s, |pre|, n);
  }

  /** A client that reads the response line by line, with the same line scanner the server
      uses, finds the status line, then the length line, then the blank line, and then exactly
      the body. */
  lemma ClientReads(verb: Method, status: Status, content: string)
    requires |content| < TWO_63
    ensures InParts(FullResponse(verb, status, content), StatusLine(status),
                    LengthLine(BodySize(verb, status, |content|)), ResponseBody(verb, status, content))
  {
    var first := StatusLine(status);
    var second := LengthLine(BodySize(verb, status, |content|));
    var body := ResponseBody(verb, status, content);
    var s := FullResponse(verb, status, content);
    assert BodySize(verb, status, |content|) < TWO_64;
    hide FullResponse, HeaderBytes, Head, ResponseBody, StatusLine, LengthLine, InParts, BodySize;
    StatusLineShape(status);
    LengthLineShape(BodySize(verb, status, |content|));
    FlattenResponse(verb, status, content);
    ThreeLines(first, second, body);
  }

  lemma FlattenResponse(verb: Method, status: Status, content: string)
    ensures FullResponse(verb, status, content) ==
            StatusLine(status) + CRLF + (LengthLine(BodySize(verb, status, |content|)) + CRLF + CRLF)
            + ResponseBody(verb, status, content)
  {
    var head := Head(verb, status, |content|);
    var file := if verb == GET && status == OK then content else "";
    assert head + StaticBody(verb, status) + file == head + (StaticBody(verb, status) + file);
  }

  lemma ThreeLines(first: string, second: string, body: string)
    requires '\r' !in first && '\r' !in second
    ensures InParts(first + CRLF + (second + CRLF + CRLF) + body, first, second, body)
  {
    var s := first + CRLF + (second + CRLF + CRLF) + body;
    hide LineIs;
    FirstLine(first, CRLF, second, body);
    SecondLine(first, CRLF, second, body);
    ThirdLine(first, CRLF, second, body);
    ReadLine("", first, second + CRLF + CRLF + body);
    ReadLine(first + CRLF, second, CRLF + body);
    ReadLine(first + CRLF + second + CRLF, "", body);
  }

  lemma FirstLine(a: string, c: string, b: string, d: string)
    ensures a + c + (b + c + c) + d == "" + a + c + (b + c + c + d)
  {
  }

  lemma SecondLine(a: string, c: string, b: string, d: string)
    ensures a + c + (b + c + c) + d == a + c + b + c + (c + d)
  {
  }

  lemma ThirdLine(a: string, c: string, b: string, d: string)
    ensures a + c + (b + c + c) + d == a + c + b + c + "" + c + d
    ensures (a + c + (b + c + c) + d)[|a| + |b| + 3 * |c|..] == d
  {
  }

  /** The client recovers the number it was told. */
  lemma ClientDecodesLength(verb: Method, status: Status, content: string)
    requires |content| < TWO_63
    ensures var line := LengthLine(BodySize(verb, status, |content|));
            Number(Trim(line[|"Content-Length:"|..])) == BodySize(verb, status, |content|)
  {
    var n := BodySize(verb, status, |content|);
    var line := LengthLine(n);
    assert |StatusName(status)| <= 21;
    assert line[|"Content-Length:"|..] == " " + Dec(n) + "";
    assert Dec(n)[0] in Dec(n) && Dec(n)[|Dec(n)| - 1] in Dec(n);
    TrimIs(" ", Dec(n), "");
    TrimDigits(Dec(n));
    PrintParse(n);
  }

  // ---------------------------------------------------------------- the log line

  function LogLine(verbText: string, uri: string, status: Status, id: string): string {
    verbText + "," + uri + "," + Dec(Code(status)) + "," + (if id == "" then "0" else id) + "\n"
  }

  /** The record send_log hands to the logger: the line, cut at the size of its buffer. */
  function LogRecord(verbText: string, uri: string, status: Status, id: string): string {
    var line := LogLine(verbText, uri, status, id);
    if |line| <= MAX_LOG then line else line[..MAX_LOG]
  }

  /** The record byte for byte, where it is not cut. */
  lemma LogRecordExactly(verbText: string, uri: string, status: Status, id: string)
    ensures var code := match status case OK => "200" case CREATED => "201" case BAD_REQUEST => "400"
                        case FORBIDDEN => "403" case NOT_FOUND => "404" case INTERNAL_ERROR => "500"
                        case NOT_IMPLEMENTED => "501";
            var line := verbText + "," + uri + "," + code + "," + (if id == "" then "0\n" else id + "\n");
            LogRecord(verbText, uri, status, id) == if |line| <= 500 then line else line[..500]
  {
    CodeDigits(status);
    var code := Dec(Code(status));
    hide Dec, Code;
    var shown := if id == "" then "0" else id;
    assert verbText + "," + uri + "," + code + "," + (shown + "\n") == LogLine(verbText, uri, status, id);
    assert "0" + "\n" == "0\n";
  }
}
