/** A one-shot reading of a request header: the specification that the resumable reader of
    server.c is proved to agree with.  It sees the whole byte stream at once and knows
    nothing of buffers, reads or suspensions. */
module Parser {
  import opened Types
  import opened Helpers
  import opened StrView

  /** What lstat and open have to say about a path asked for by GET or HEAD. */
  datatype GetAnswer = Missing | StatFails | NotRegular | OpenFails | Content(bytes: string)

  /** The part of the request state that the header decides; `pos` is the first unparsed byte. */
  datatype Parse = Parse(
    pos: nat, stage: Stage, status: Status, verb: Method,
    verbText: string, uri: string, id: string, bodyLen: nat)

  const START: Parse := Parse(0, REQUEST_LINE, OK, NONE_YET, "", "", "", 0)

  predicate InHeader(stage: Stage) {
    stage == REQUEST_LINE || stage == HEADER_FIELDS
  }

  function Fail(p: Parse, status: Status): Parse {
    p.(status := status, stage := BUILD_HEADER)
  }

  // ---------------------------------------------------------------- the request line

  predicate PathChar(c: char) {
    IsAlpha(c) || IsNumeric(c) || c == '.' || c == '-' || c == '_'
  }

  predicate ValidPath(s: string) {
    |s| >= 2 && s[0] == '/' && forall k | 1 <= k < |s| :: PathChar(s[k])
  }

  predicate AllAlpha(s: string) {
    forall k | 0 <= k < |s| :: IsAlpha(s[k])
  }

  function MethodOf(s: string): Method {
    if s == "GET" then GET else if s == "PUT" then PUT else if s == "HEAD" then HEAD else UNKNOWN
  }

  /** A method name the server might have known is not implemented; anything else is malformed. */
  function Unrecognised(s: string): Status {
    if |s| <= 8 && AllAlpha(s) then NOT_IMPLEMENTED else BAD_REQUEST
  }

  /** The path and the protocol, behind the method and its space. */
  function ParseTarget(q: Parse, rest: string): Parse {
    var j := IndexOf(rest, ' ');
    if j == |rest| then Fail(q, BAD_REQUEST)
    else
      var u := q.(uri := rest[..j]);
      if ValidPath(u.uri) && Trim(rest[j + 1..]) == "HTTP/1.1" then u.(stage := HEADER_FIELDS)
      else Fail(u, BAD_REQUEST)
  }

  function ParseRl(p: Parse, line: string): Parse {
    var i := IndexOf(line, ' ');
    if i == |line| then Fail(p, BAD_REQUEST)
    else
      var q := p.(verbText := line[..i], verb := MethodOf(line[..i]));
      if q.verb == UNKNOWN then Fail(q, Unrecognised(line[..i])) else ParseTarget(q, line[i + 1..])
  }

  predicate Letters(w: string) {
    forall k | 0 <= k < |w| :: 'a' <= w[k] <= 'z' || 'A' <= w[k] <= 'Z'
  }

  /** A file name that can be asked for: letters, digits, dots, dashes and underscores. */
  predicate FileName(name: string) {
    name != "" && forall k | 0 <= k < |name| ::
      'a' <= name[k] <= 'z' || 'A' <= name[k] <= 'Z' || '0' <= name[k] <= '9' || name[k] in ".-_"
  }

  lemma ValidPathExactly(uri: string)
    ensures ValidPath(uri) <==> uri != "" && uri[0] == '/' && FileName(uri[1..])
    ensures ValidPath(uri) ==> PathOf(uri) == uri[1..]
  {
    if uri != "" && uri[0] == '/' {
      assert forall k | 1 <= k < |uri| :: uri[k] == uri[1..][k - 1];
      assert forall k | 0 <= k < |uri| - 1 :: uri[1..][k] == uri[k + 1];
    }
  }

  predicate OtherWord(w: string) { Letters(w) && w != "GET" && w != "PUT" && w != "HEAD" }

  /** The line starts with a method name that the server might have known: at most eight letters. */
  predicate OtherMethod(line: string) {
    exists i | 0 <= i < |line| :: i <= 8 && OtherWord(line[..i]) && line[i] == ' '
  }

  /** A line outside the grammar is answered with 501 exactly if it starts with another method
      name, and with 400 otherwise. */
  lemma RefusedLineExactly(p: Parse, line: string)
    requires p.stage == REQUEST_LINE && ParseRl(p, line).stage != HEADER_FIELDS
    ensures var q := ParseRl(p, line);
            q.stage == BUILD_HEADER && q.status == if OtherMethod(line) then NOT_IMPLEMENTED else BAD_REQUEST
  {
    var i := IndexOf(line, ' ');
    if OtherMethod(line) {
      var k :| 0 <= k < |line| && k <= 8 && OtherWord(line[..k]) && line[k] == ' ';
      var w := line[..k];
      LettersAreAlpha(w);
      NoSpaceIn(w);
      SplitAt(line, k);
      IndexOfIs(w, ' ', line[k + 1..]);
    } else if i < |line| {
      LettersAreAlpha(line[..i]);
    }
  }

  lemma LettersAreAlpha(w: string)
    ensures Letters(w) <==> AllAlpha(w)
  {
  }

  lemma NoSpaceIn(w: string)
    requires Letters(w)
    ensures ' ' !in w
  {
    LettersAreAlpha(w);
  }

  /** Either the line is accepted with a known method and a valid path, or the request fails. */
  lemma ParseRlOutcome(p: Parse, line: string)
    ensures var q := ParseRl(p, line);
            if q.stage == HEADER_FIELDS then
              q.status == p.status && q.verb in {GET, PUT, HEAD} && ValidPath(q.uri)
            else q.stage == BUILD_HEADER && IsError(q.status)
  {
  }

  /** The request-line grammar: method, one space, path, one or more spaces, protocol, any spaces. */
  ghost predicate RequestLine(line: string, verb: Method, uri: string) {
    exists m: string, a: nat, b: nat ::
      a >= 1 && MethodOf(m) == verb && verb != UNKNOWN && ValidPath(uri)
      && line == RenderLine(m, uri, a, b)
  }

  function RenderLine(m: string, uri: string, a: nat, b: nat): string {
    m + " " + uri + Spaces(a) + "HTTP/1.1" + Spaces(b)
  }

  lemma SplitAt(s: string, i: nat)
    requires i < |s|
    ensures s == s[..i] + [s[i]] + s[i + 1..]
  {
  }

  lemma CutAt(a: string, c: char, b: string)
    ensures (a + [c] + b)[..|a|] == a && (a + [c] + b)[|a| + 1..] == b
  {
    assert a + [c] + b == a + ([c] + b);
  }

  lemma {:induction false} IndexOfIs(a: string, c: char, b: string)
    requires c !in a
    ensures IndexOf(a + [c] + b, c) == |a|
  {
    hide IndexOf;
    var s := a + [c] + b;
    assert forall k | 0 <= k < |a| :: s[k] == a[k] && a[k] in a;
    assert forall k | |a| < k <= |s| :: s[..k][|a|] == c;
  }

  lemma PathHasNoSpace(uri: string)
    requires ValidPath(uri)
    ensures ' ' !in uri
  {
    forall k | 0 <= k < |uri| ensures uri[k] != ' ' {
      assert k == 0 || PathChar(uri[k]);
    }
  }

  /** The three parts of a line, with the protocol still to be trimmed. */
  lemma ParseParts(p: Parse, m: string, uri: string, proto: string)
    requires MethodOf(m) != UNKNOWN && ValidPath(uri) && Trim(proto) == "HTTP/1.1"
    ensures ParseRl(p, m + " " + (uri + " " + proto)) ==
            p.(verbText := m, verb := MethodOf(m), uri := uri, stage := HEADER_FIELDS)
  {
    var rest := uri + " " + proto;
    assert ' ' !in m;
    PathHasNoSpace(uri);
    hide IndexOf, Trim, ValidPath, MethodOf;
    IndexOfIs(m, ' ', rest);
    CutAt(m, ' ', rest);
    IndexOfIs(uri, ' ', proto);
    CutAt(uri, ' ', proto);
  }

  lemma RenderRegroup(m: string, uri: string, a: nat, b: nat)
    ensures m + " " + (uri + " " + (Spaces(a) + "HTTP/1.1" + Spaces(b))) == RenderLine(m, uri, a + 1, b)
  {
    var h := "HTTP/1.1";
    assert [' '] + Spaces(a) == Spaces(a + 1);
    Regroup(m, uri, Spaces(a), h, Spaces(b));
  }

  lemma Regroup(m: string, uri: string, a: string, h: string, b: string)
    ensures m + " " + (uri + " " + (a + h + b)) == m + " " + uri + ([' '] + a) + h + b
  {
  }

  /** Printing an accepted request line and parsing it gives the triple back. */
  lemma ParseRendered(p: Parse, m: string, uri: string, a: nat, b: nat)
    requires a >= 1 && MethodOf(m) != UNKNOWN && ValidPath(uri)
    ensures ParseRl(p, RenderLine(m, uri, a, b)) ==
            p.(verbText := m, verb := MethodOf(m), uri := uri, stage := HEADER_FIELDS)
  {
    TrimIs(Spaces(a - 1), "HTTP/1.1", Spaces(b));
    hide ParseRl, RenderLine, ValidPath, MethodOf, Trim;
    RenderRegroup(m, uri, a - 1, b);
    ParseParts(p, m, uri, Spaces(a - 1) + "HTTP/1.1" + Spaces(b));
  }

  lemma AllSpacesIs(s: string)
    requires AllSpaces(s)
    ensures s == Spaces(|s|)
  {
    forall k | 0 <= k < |s| ensures s[k] == ' ' {
      assert s[k] in s;
    }
  }

  /** A line that parse_rl accepts is one of the grammar. */
  lemma AcceptedInLanguage(p: Parse, line: string)
    requires p.stage == REQUEST_LINE && ParseRl(p, line).stage == HEADER_FIELDS
    ensures RequestLine(line, ParseRl(p, line).verb, ParseRl(p, line).uri)
  {
    var i := IndexOf(line, ' ');
    var m, rest := line[..i], line[i + 1..];
    var j := IndexOf(rest, ' ');
    var uri, proto := rest[..j], rest[j + 1..];
    assert MethodOf(m) == ParseRl(p, line).verb && ValidPath(uri) && Trim(proto) == "HTTP/1.1";
    assert ParseRl(p, line).uri == uri;
    hide ParseRl, MethodOf, ValidPath, Trim, IndexOf;
    SplitAt(line, i);
    SplitAt(rest, j);
    var l, r := TrimSplit(proto);
    AllSpacesIs(l);
    AllSpacesIs(r);
    RenderRegroup(m, uri, |l|, |r|);
    assert line == RenderLine(m, uri, |l| + 1, |r|);
  }

  /** parse_rl moves on to the header fields exactly on the lines of the grammar. */
  lemma RequestLineLanguage(p: Parse, line: string)
    requires p.stage == REQUEST_LINE
    ensures var q := ParseRl(p, line);
            q.stage == HEADER_FIELDS <==> RequestLine(line, q.verb, q.uri)
    ensures forall m: Method, u: string | RequestLine(line, m, u) ::
              var q := ParseRl(p, line); q.stage == HEADER_FIELDS && q.verb == m && q.uri == u
  {
    var q := ParseRl(p, line);
    if q.stage == HEADER_FIELDS {
      AcceptedInLanguage(p, line);
    }
    forall m: Method, u: string | RequestLine(line, m, u)
      ensures q.stage == HEADER_FIELDS && q.verb == m && q.uri == u
    {
      var t: string, a: nat, b: nat :| a >= 1 && MethodOf(t) == m && m != UNKNOWN && ValidPath(u)
        && line == RenderLine(t, u, a, b);
      ParseRendered(p, t, u, a, b);
    }
  }

  // ---------------------------------------------------------------- header fields

  datatype Field = Field(key: string, value: string)

  /** What one field does to the request state.  Names are compared case-sensitively. */
  function ApplyField(p: Parse, f: Field): Parse {
    var value := Trim(f.value);
    if f.key == "Content-Length" then
      (if Number(value) < 0 then Fail(p, BAD_REQUEST) else p.(bodyLen := Number(value)))
    else if f.key == "RequestID" then p.(id := value)
    else p
  }

  function ParseHf(p: Parse, line: string): Parse {
    var k := IndexOf(line, ':');
    if k == |line| then Fail(p, BAD_REQUEST) else ApplyField(p, Field(line[..k], line[k + 1..]))
  }

  /** A field keeps the request line, and the status unless it fails. */
  lemma ParseHfOutcome(p: Parse, line: string)
    ensures var q := ParseHf(p, line);
            && q.verb == p.verb && q.uri == p.uri && q.verbText == p.verbText && q.pos == p.pos
            && ((q.stage == p.stage && q.status == p.status) || (q.stage == BUILD_HEADER && IsError(q.status)))
  {
  }

  /** The path handed to the kernel: the uri without its leading slash. */
  function PathOf(uri: string): string {
    if uri == "" then "" else uri[1..]
  }

  /** The status that opening the file of a GET or HEAD request fails with, if it does. */
  function OpenFailure(uri: string, lookup: string -> GetAnswer): Option<Status> {
    if |uri| >= MAX_PATH then Some(BAD_REQUEST)
    else
      match lookup(PathOf(uri))
      case Missing => Some(NOT_FOUND)
      case Content(_) => None
      case _ => Some(FORBIDDEN)
  }

  lemma OpenFailureIsError(uri: string, lookup: string -> GetAnswer)
    ensures var f := OpenFailure(uri, lookup); f.Some? ==> IsError(f.value)
  {
  }

  /** The blank line: the file of a GET or HEAD is opened, the body of a PUT comes next. */
  function EndOfHeader(p: Parse, lookup: string -> GetAnswer): Parse {
    if p.verb == PUT then p.(stage := READ_BODY)
    else if p.verb == GET || p.verb == HEAD then
      match OpenFailure(p.uri, lookup)
      case Some(status) => Fail(p, status)
      case None => p.(stage := BUILD_HEADER)
    else p.(stage := BUILD_HEADER)
  }

  /** One line, ending just before position e. */
  function Advance(p: Parse, line: string, e: nat, lookup: string -> GetAnswer): (q: Parse)
    requires InHeader(p.stage)
    ensures q.pos == e
  {
    var q :=
      if p.stage == REQUEST_LINE then ParseRl(p, line)
      else if line == "" then EndOfHeader(p, lookup)
      else ParseHf(p, line);
    q.(pos := e)
  }

  function NextLine(s: string, pos: nat): (r: Option<nat>)
    requires pos <= |s|
    ensures r.Some? ==> pos + 2 <= r.value <= |s|
  {
    ScanAt(s, pos, |s|, CRLF, 0)
  }

  /** The one-shot parse: line after line until the header ends or the text runs out. */
  function OneShot(s: string, p: Parse, lookup: string -> GetAnswer): (q: Parse)
    requires p.pos <= |s|
    ensures p.pos <= q.pos <= |s|
    decreases |s| - p.pos
  {
    if !InHeader(p.stage) then p
    else
      match NextLine(s, p.pos)
      case None => p
      case Some(e) => OneShot(s, Advance(p, s[p.pos..e - 2], e, lookup), lookup)
  }

  lemma OneShotStep(s: string, p: Parse, e: nat, lookup: string -> GetAnswer)
    requires p.pos <= |s| && InHeader(p.stage) && NextLine(s, p.pos) == Some(e)
    ensures OneShot(s, p, lookup) == OneShot(s, Advance(p, s[p.pos..e - 2], e, lookup), lookup)
  {
    hide Advance, NextLine;
  }

  lemma OneShotFails(s: string, p: Parse, lookup: string -> GetAnswer)
    requires p.pos <= |s|
    ensures !InHeader(p.stage) ==> OneShot(s, p, lookup) == p
  {
  }

  /** A complete line is the same line in a longer text. */
  lemma NextLineExtends(s: string, t: string, pos: nat)
    requires pos <= |s| <= |t| && t[..|s|] == s && NextLine(s, pos).Some?
    ensures NextLine(t, pos) == NextLine(s, pos)
    ensures var e := NextLine(s, pos).value; s[pos..e - 2] == t[pos..e - 2]
  {
    assert s[pos..] == t[..|s|][pos..] == t[pos..|s|];
    ScanExtends(s, t, pos, |s|, |t|, CRLF, 0);
    var e := NextLine(s, pos).value;
    assert s[pos..e - 2] == t[..|s|][pos..e - 2] == t[pos..e - 2];
  }

  /** Bytes after the header do not change what was parsed. */
  lemma {:induction false} OneShotExtends(s: string, t: string, p: Parse, lookup: string -> GetAnswer)
    requires p.pos <= |s| <= |t| && t[..|s|] == s
    ensures OneShot(t, p, lookup) == OneShot(t, OneShot(s, p, lookup), lookup)
    ensures !InHeader(OneShot(s, p, lookup).stage) ==> OneShot(t, p, lookup) == OneShot(s, p, lookup)
    decreases |s| - p.pos
  {
    hide Advance, NextLine;
    if InHeader(p.stage) && NextLine(s, p.pos).Some? {
      var e := NextLine(s, p.pos).value;
      NextLineExtends(s, t, p.pos);
      OneShotExtends(s, t, Advance(p, s[p.pos..e - 2], e, lookup), lookup);
    }
  }

  // ---------------------------------------------------------------- a rendered request

  function RenderField(f: Field): string {
    f.key + ":" + f.value
  }

  lemma ParseHfRendered(p: Parse, f: Field)
    requires ':' !in f.key
    ensures ParseHf(p, RenderField(f)) == ApplyField(p, f)
  {
    var line := RenderField(f);
    IndexOfIs(f.key, ':', f.value);
    assert line[..|f.key|] == f.key && line[|f.key| + 1..] == f.value;
  }

  /** The text can be sent as one line: the scanner meets no line end in it before the one sent
      behind it.  It may hold single carriage returns and line feeds. */
  predicate OneLine(line: string) {
    ScanAt(line + CRLF, 0, |line| + 2, CRLF, 0) == Some(|line| + 2)
  }

  lemma PlainIsOneLine(line: string)
    requires '\r' !in line
    ensures OneLine(line)
  {
    assert (line + CRLF)[0..|line|] == line;
    ScanPlainLine(line + CRLF, 0, |line|);
  }

  /** An empty line ends the header. */
  predicate FieldLine(line: string) {
    line != "" && OneLine(line)
  }

  function RenderLines(lines: seq<string>): string {
    if lines == [] then "" else lines[0] + CRLF + RenderLines(lines[1..])
  }

  function RenderHeader(m: string, uri: string, a: nat, b: nat, lines: seq<string>): string {
    RenderLine(m, uri, a, b) + CRLF + RenderLines(lines) + CRLF
  }

  function LineDone(p: Parse, line: string): (q: Parse)
    ensures q.pos == p.pos + |line| + 2
  {
    ParseHf(p, line).(pos := p.pos + |line| + 2)
  }

  /** What a list of lines does to the request state: the last Content-Length and the last
      RequestID win, a rejected line ends the header, other names are ignored. */
  function ApplyLines(p: Parse, lines: seq<string>): Parse
    decreases |lines|
  {
    if lines == [] || p.stage != HEADER_FIELDS then p
    else ApplyLines(LineDone(p, lines[0]), lines[1..])
  }

  /** The request state at the end of the header, the lines and the blank line behind p. */
  function AfterLines(p: Parse, lines: seq<string>, lookup: string -> GetAnswer): Parse {
    var q := ApplyLines(p, lines);
    if q.stage == HEADER_FIELDS then EndOfHeader(q.(pos := q.pos + 2), lookup) else q
  }

  /** One rendered line at the parse position is read as that line. */
  lemma LineAt(s: string, pos: nat, line: string)
    requires HoldsAt(s, pos, line + CRLF) && OneLine(line)
    ensures NextLine(s, pos) == Some(pos + |line| + 2)
    ensures s[pos..pos + |line|] == line
  {
    var w, n := line + CRLF, pos + |line| + 2;
    assert s[pos..n][..|line|] == w[..|line|] == line;
    assert s[pos + 0..pos + |w|] == w[0..|w|];
    ScanShift(s, w, pos, 0, |w|, CRLF, 0);
    ScanExtends(s, s, pos, n, |s|, CRLF, 0);
  }

  predicate HoldsAt(s: string, pos: nat, text: string) {
    pos + |text| <= |s| && s[pos..pos + |text|] == text
  }

  lemma HoldsAtSplit(s: string, pos: nat, a: string, b: string)
    requires HoldsAt(s, pos, a + b)
    ensures HoldsAt(s, pos, a) && HoldsAt(s, pos + |a|, b)
  {
    var w := s[pos..pos + |a + b|];
    assert s[pos..pos + |a|] == w[..|a|] == a;
    assert s[pos + |a|..pos + |a| + |b|] == w[|a|..] == b;
  }

  lemma OneShotLine(s: string, p: Parse, line: string, lookup: string -> GetAnswer)
    requires InHeader(p.stage) && OneLine(line) && HoldsAt(s, p.pos, line + CRLF)
    ensures OneShot(s, p, lookup) == OneShot(s, Advance(p, line, p.pos + |line| + 2, lookup), lookup)
  {
    hide Advance;
    LineAt(s, p.pos, line);
  }

  lemma LinesRest(s: string, pos: nat, lines: seq<string>)
    requires lines != [] && HoldsAt(s, pos, RenderLines(lines) + CRLF)
    ensures var line := lines[0];
            && HoldsAt(s, pos, line + CRLF)
            && pos + |line| + 2 <= |s| && HoldsAt(s, pos + |line| + 2, RenderLines(lines[1..]) + CRLF)
  {
    var line, rest := lines[0], RenderLines(lines[1..]);
    assert RenderLines(lines) == line + CRLF + rest;
    hide RenderLines, HoldsAt;
    RegroupPairs(line, CRLF, rest);
    HoldsAtSplit(s, pos, line + CRLF, rest + CRLF);
    HoldsAtBound(s, pos, line + CRLF);
  }

  lemma RegroupPairs(a: string, b: string, c: string)
    ensures (a + b + c) + b == (a + b) + (c + b)
  {
  }

  lemma HoldsAtBound(s: string, pos: nat, text: string)
    requires HoldsAt(s, pos, text)
    ensures pos + |text| <= |s|
  {
  }

  /** The blank line that ends a header. */
  lemma OneShotBlank(s: string, p: Parse, lookup: string -> GetAnswer)
    requires p.stage == HEADER_FIELDS && HoldsAt(s, p.pos, CRLF)
    ensures OneShot(s, p, lookup) == EndOfHeader(p.(pos := p.pos + 2), lookup)
  {
    assert "" + CRLF == CRLF;
    PlainIsOneLine("");
    OneShotLine(s, p, "", lookup);
  }

  lemma LineStage(s: string, p: Parse, line: string, lookup: string -> GetAnswer)
    requires p.stage == HEADER_FIELDS && LineDone(p, line).pos <= |s|
    ensures var q := LineDone(p, line); q.stage != HEADER_FIELDS ==> OneShot(s, q, lookup) == q
  {
  }

  lemma {:induction false} LinesRoundTrip(s: string, p: Parse, lines: seq<string>, lookup: string -> GetAnswer)
    requires p.stage == HEADER_FIELDS && p.pos <= |s|
    requires forall k | 0 <= k < |lines| :: FieldLine(lines[k])
    requires HoldsAt(s, p.pos, RenderLines(lines) + CRLF)
    ensures OneShot(s, p, lookup) == AfterLines(p, lines, lookup)
    decreases |lines|
  {
    hide OneShot, ParseHf, ParseRl, EndOfHeader;
    if lines == [] {
      assert RenderLines(lines) + CRLF == CRLF;
      OneShotBlank(s, p, lookup);
    } else {
      hide RenderLines, HoldsAt;
      assert forall k | 0 <= k < |lines[1..]| :: lines[1..][k] == lines[k + 1];
      LinesRest(s, p.pos, lines);
      OneShotLine(s, p, lines[0], lookup);
      LineStage(s, p, lines[0], lookup);
      var q := LineDone(p, lines[0]);
      assert ApplyLines(p, lines) == ApplyLines(q, lines[1..]);
      if q.stage == HEADER_FIELDS {
        LinesRoundTrip(s, q, lines[1..], lookup);
      } else {
        assert ApplyLines(q, lines[1..]) == q;
      }
    }
  }

  lemma RenderedLineOneLine(m: string, uri: string, a: nat, b: nat)
    requires a >= 1 && MethodOf(m) != UNKNOWN && ValidPath(uri)
    ensures '\r' !in RenderLine(m, uri, a, b) && OneLine(RenderLine(m, uri, a, b))
  {
    assert '\r' !in uri by {
      forall k | 0 <= k < |uri| ensures uri[k] != '\r' {
        assert k == 0 || PathChar(uri[k]);
      }
    }
    assert '\r' !in Spaces(a) && '\r' !in Spaces(b);
    assert '\r' !in m && '\r' !in "HTTP/1.1";
    PlainIsOneLine(RenderLine(m, uri, a, b));
  }

  /** The request state behind a rendered request line. */
  function LineParsed(m: string, uri: string, a: nat, b: nat): Parse {
    START.(verbText := m, verb := MethodOf(m), uri := uri, stage := HEADER_FIELDS,
           pos := |RenderLine(m, uri, a, b)| + 2)
  }

  /** Reading back a rendered header, whatever body follows it, gives the request that was
      rendered, with the lines applied in order and the body starting right after the header. */
  lemma RenderParse(m: string, uri: string, a: nat, b: nat, lines: seq<string>, body: string,
                    lookup: string -> GetAnswer)
    requires a >= 1 && MethodOf(m) != UNKNOWN && ValidPath(uri)
    requires forall k | 0 <= k < |lines| :: FieldLine(lines[k])
    ensures var header := RenderHeader(m, uri, a, b, lines);
            var p := LineParsed(m, uri, a, b);
            var q := ApplyLines(p, lines);
            && OneShot(header + body, START, lookup) == AfterLines(p, lines, lookup)
            && (q.stage == HEADER_FIELDS ==> q.pos + 2 == |header|)
  {
    var line := RenderLine(m, uri, a, b);
    var tail := RenderLines(lines) + CRLF;
    var s := RenderHeader(m, uri, a, b, lines) + body;
    HeaderSplit(line, tail, body);
    hide OneShot, ParseRl, RenderLine, RenderLines, EndOfHeader, ApplyLines;
    assert line + CRLF + RenderLines(lines) + CRLF == (line + CRLF) + tail;
    RenderedLineOneLine(m, uri, a, b);
    OneShotLine(s, START, line, lookup);
    ParseRendered(START, m, uri, a, b);
    var p := Advance(START, line, |line| + 2, lookup);
    LinesRoundTrip(s, p, lines, lookup);
    ApplyLinesPos(p, lines);
  }

  lemma HeaderSplit(line: string, tail: string, body: string)
    ensures var s := (line + CRLF) + tail + body;
            HoldsAt(s, 0, line + CRLF) && HoldsAt(s, |line| + 2, tail)
  {
    var s := (line + CRLF) + tail + body;
    assert HoldsAt(s, 0, (line + CRLF) + tail);
    HoldsAtSplit(s, 0, line + CRLF, tail);
  }

  lemma {:induction false} ApplyLinesPos(p: Parse, lines: seq<string>)
    ensures var q := ApplyLines(p, lines);
            && (q.stage == HEADER_FIELDS ==> p.stage == HEADER_FIELDS && q.pos == p.pos + |RenderLines(lines)|)
            && q.verb == p.verb && q.verbText == p.verbText && q.uri == p.uri
    decreases |lines|
  {
    if lines != [] && p.stage == HEADER_FIELDS {
      hide ParseHf;
      ParseHfOutcome(p, lines[0]);
      ApplyLinesPos(LineDone(p, lines[0]), lines[1..]);
    }
  }

  // ---------------------------------------------------------------- malformed lines

  /** The name of a field: what stands in front of its first colon. */
  function NameOf(line: string): string {
    line[..IndexOf(line, ':')]
  }

  /** The characters of a token (section 5.6.2 of RFC 9110), of which a field name consists. */
  predicate TokenChar(c: char) {
    IsAlpha(c) || IsNumeric(c) || c in "!#$%&'*+-.^_`|~"
  }

  predicate Token(s: string) {
    s != "" && forall k | 0 <= k < |s| :: TokenChar(s[k])
  }

  /** A line without a colon, or a Content-Length whose value is not a number or is one that a
      signed 64-bit word holds as a negative one. */
  predicate Rejected(line: string) {
    ':' !in line || (NameOf(line) == "Content-Length" && BadLength(line[|NameOf(line)| + 1..]))
  }

  /** Nothing but spaces, or something that is no digit, or digits that wrap to a negative number. */
  predicate BadLength(value: string) {
    var t := Trim(value);
    t == "" || (exists k :: 0 <= k < |t| && t[k] !in "0123456789") || (AllNumeric(t) && Wrap64(Value(t)) < 0)
  }

  lemma BadLengthIsNegative(value: string)
    ensures BadLength(value) <==> Number(Trim(value)) < 0
  {
    var t := Trim(value);
    hide Trim, Wrap64, Value;
    forall c: char ensures IsNumeric(c) <==> c in "0123456789" {
      NumericExactly(c);
    }
    if t != "" && !AllNumeric(t) {
      var c :| c in t && !IsNumeric(c);
      var k :| 0 <= k < |t| && t[k] == c;
      assert t[k] !in "0123456789";
    }
  }

  lemma NumericExactly(c: char)
    ensures IsNumeric(c) <==> c in "0123456789"
  {
  }

  /** A length that holds anything but digits, or nothing, is answered with 400. */
  lemma NoNumberRejected(p: Parse, value: string, k: nat)
    requires var t := Trim(value); t == "" || (k < |t| && t[k] !in "0123456789")
    ensures ParseHf(p, "Content-Length:" + value) == Fail(p, BAD_REQUEST)
  {
    assert BadLength(value);
    BadLengthIsNegative(value);
    LengthName();
    ParseHfRendered(p, Field("Content-Length", value));
    LengthText(value);
    hide ParseHf, Trim, Number;
  }

  lemma LengthText(value: string)
    ensures RenderField(Field("Content-Length", value)) == "Content-Length:" + value
  {
    assert "Content-Length" + ":" == "Content-Length:";
    assert ("Content-Length" + ":") + value == "Content-Length" + ":" + value;
  }

  /** The request id is the value without the spaces around it. */
  lemma RequestIdRead(p: Parse, value: string)
    ensures ParseHf(p, "RequestID:" + value) == p.(id := Trim(value))
  {
    assert ':' !in "RequestID";
    ParseHfRendered(p, Field("RequestID", value));
    assert "RequestID" + ":" == "RequestID:";
    assert RenderField(Field("RequestID", value)) == "RequestID:" + value;
    hide ParseHf, Trim;
  }

  lemma ColonFound(line: string)
    ensures ':' in line <==> IndexOf(line, ':') < |line|
  {
    assert line[..|line|] == line;
  }

  /** A field line is rejected, with 400, exactly if it has no colon or is a Content-Length with
      such a value. */
  lemma LineRejectedExactly(p: Parse, line: string)
    requires p.stage == HEADER_FIELDS
    ensures if Rejected(line) then ParseHf(p, line) == Fail(p, BAD_REQUEST)
            else ParseHf(p, line).stage == HEADER_FIELDS && ParseHf(p, line).status == p.status
  {
    ColonFound(line);
    if ':' in line {
      BadLengthIsNegative(line[IndexOf(line, ':') + 1..]);
    }
    hide IndexOf, Trim, Number, BadLength;
  }

  /** A malformed name is rejected exactly where there is no colon; with one, the line is ignored. */
  lemma MalformedNameExactly(p: Parse, line: string)
    requires p.stage == HEADER_FIELDS && !Token(NameOf(line))
    ensures ParseHf(p, line).stage != HEADER_FIELDS <==> ':' !in line
    ensures ':' in line ==> ParseHf(p, line) == p
  {
    ColonFound(line);
    KnownNames();
    hide IndexOf, Trim, Number, Token;
  }

  lemma KnownNames()
    ensures Token("Content-Length") && Token("RequestID")
  {
  }

  /** Two malformed names that are accepted: an empty one, and one with a space. */
  lemma BadKeysAccepted(p: Parse)
    ensures !Token(NameOf(": 4000")) && ParseHf(p, ": 4000") == p
    ensures !Token(NameOf("K 2: val")) && ParseHf(p, "K 2: val") == p
  {
    hide NameOf, ParseHf, Token;
    OtherName(p, "", " 4000", ": 4000");
    OtherName(p, "K 2", " val", "K 2: val");
    SpaceInToken("K 2", 1);
    SpaceInToken("", 0);
  }

  lemma SpaceInToken(s: string, k: nat)
    requires k < |s| ==> s[k] == ' '
    ensures s == "" || k < |s| ==> !Token(s)
  {
    assert !TokenChar(' ');
  }

  lemma OtherName(p: Parse, key: string, value: string, line: string)
    requires ':' !in key && key != "Content-Length" && key != "RequestID" && line == key + ":" + value
    ensures NameOf(line) == key && ':' in line && ParseHf(p, line) == p
  {
    ParseHfRendered(p, Field(key, value));
    IndexOfIs(key, ':', value);
  }

  /** A Content-Length of digits counts as what a signed 64-bit word makes of it, and is rejected
      if that is negative. */
  lemma LengthField(p: Parse, n: nat)
    ensures var line, len := RenderField(Field("Content-Length", Dec(n))), Wrap64(n);
            && (Rejected(line) <==> len < 0)
            && ParseHf(p, line) == if len < 0 then Fail(p, BAD_REQUEST) else p.(bodyLen := len)
  {
    var f := Field("Content-Length", Dec(n));
    LengthName();
    TrimDigits(Dec(n));
    DecValue(n);
    assert Number(Dec(n)) == Wrap64(n);
    BadLengthIsNegative(Dec(n));
    hide IndexOf, Dec, Trim, Wrap64, Number, BadLength;
    SplitField(f);
    ParseHfRendered(p, f);
    hide ParseHf, RenderField, NameOf;
  }

  lemma LengthName()
    ensures ':' !in "Content-Length"
  {
  }

  lemma SplitField(f: Field)
    requires ':' !in f.key
    ensures var line := RenderField(f); ':' in line && NameOf(line) == f.key && line[|f.key| + 1..] == f.value
  {
    IndexOfIs(f.key, ':', f.value);
    assert RenderField(f)[|f.key|] == ':';
  }

  /** Two numbers that do not fit: the first is rejected, the second is taken for 0. */
  lemma WrappedLengths(p: Parse)
    ensures ParseHf(p, RenderField(Field("Content-Length", Dec(TWO_63)))) == Fail(p, BAD_REQUEST)
    ensures ParseHf(p, RenderField(Field("Content-Length", Dec(TWO_64)))) == p.(bodyLen := 0)
  {
    hide ParseHf, RenderField, Dec;
    LengthField(p, TWO_63);
    LengthField(p, TWO_64);
  }

  lemma {:induction false} LinesRejectedExactly(p: Parse, lines: seq<string>)
    requires p.stage == HEADER_FIELDS && p.status == OK
    ensures var q := ApplyLines(p, lines);
            if exists k :: 0 <= k < |lines| && Rejected(lines[k]) then
              q.stage == BUILD_HEADER && q.status == BAD_REQUEST
            else q.stage == HEADER_FIELDS && q.status == OK
    decreases |lines|
  {
    if lines != [] {
      hide Rejected, ParseHf;
      LineRejectedExactly(p, lines[0]);
      if !Rejected(lines[0]) {
        assert forall k | 0 <= k < |lines| - 1 :: lines[1..][k] == lines[k + 1];
        assert forall k | 1 <= k < |lines| :: lines[k] == lines[1..][k - 1];
        LinesRejectedExactly(LineDone(p, lines[0]), lines[1..]);
      }
    }
  }

  /** A whole header is answered with 400 exactly if one of its lines has no colon or is a
      Content-Length with a bad value, however malformed the names in it are, or if the path of a
      GET or HEAD is too long. */
  lemma HeaderRejectedExactly(m: string, uri: string, a: nat, b: nat, lines: seq<string>, body: string,
                              lookup: string -> GetAnswer)
    requires a >= 1 && MethodOf(m) != UNKNOWN && ValidPath(uri)
    requires forall k | 0 <= k < |lines| :: FieldLine(lines[k])
    ensures OneShot(RenderHeader(m, uri, a, b, lines) + body, START, lookup).status == BAD_REQUEST
            <==> (exists k :: 0 <= k < |lines| && Rejected(lines[k])) || (MethodOf(m) != PUT && |uri| >= MAX_PATH)
  {
    hide OneShot, RenderHeader, RenderLine, Rejected, ApplyLines, EndOfHeader, FieldLine, ValidPath, MethodOf;
    var p := LineParsed(m, uri, a, b);
    RenderParse(m, uri, a, b, lines, body, lookup);
    LinesRejectedExactly(p, lines);
    ApplyLinesPos(p, lines);
    KnownMethod(m);
    var q := ApplyLines(p, lines);
    if q.status == OK {
      BlankLineRejects(q.(pos := q.pos + 2), lookup);
    }
  }

  lemma KnownMethod(m: string)
    ensures MethodOf(m) in {GET, PUT, HEAD, UNKNOWN}
  {
  }

  lemma BlankLineRejects(p: Parse, lookup: string -> GetAnswer)
    requires p.status == OK && p.verb in {GET, PUT, HEAD}
    ensures EndOfHeader(p, lookup).status == BAD_REQUEST <==> p.verb != PUT && |p.uri| >= MAX_PATH
  {
  }

  /** A line with a malformed name and a colon changes nothing: the header is read as if it were
      not there. */
  lemma {:induction false} IgnoredLine(p: Parse, q: Parse, before: seq<string>, line: string, after: seq<string>)
    requires p.(pos := 0) == q.(pos := 0) && !Token(NameOf(line)) && ':' in line
    ensures ApplyLines(p, before + [line] + after).(pos := 0) == ApplyLines(q, before + after).(pos := 0)
    decreases |before|
  {
    if p.stage == HEADER_FIELDS {
      var lines := before + [line] + after;
      if before == [] {
        MalformedNameExactly(p, line);
        assert lines[1..] == after && before + after == after;
        hide ParseHf;
        SamePast(LineDone(p, line), q, after);
      } else {
        assert lines[1..] == before[1..] + [line] + after && (before + after)[1..] == before[1..] + after;
        SameLine(p, q, before[0]);
        hide ParseHf;
        IgnoredLine(LineDone(p, before[0]), LineDone(q, before[0]), before[1..], line, after);
      }
    }
  }

  lemma SameLine(p: Parse, q: Parse, line: string)
    requires p.(pos := 0) == q.(pos := 0)
    ensures ParseHf(p, line).(pos := 0) == ParseHf(q, line).(pos := 0)
  {
    hide IndexOf, Trim, Number;
  }

  lemma {:induction false} SamePast(p: Parse, q: Parse, lines: seq<string>)
    requires p.(pos := 0) == q.(pos := 0)
    ensures ApplyLines(p, lines).(pos := 0) == ApplyLines(q, lines).(pos := 0)
    decreases |lines|
  {
    if lines != [] && p.stage == HEADER_FIELDS {
      SameLine(p, q, lines[0]);
      hide ParseHf;
      SamePast(LineDone(p, lines[0]), LineDone(q, lines[0]), lines[1..]);
    }
  }

  /** The same over whole requests. */
  lemma MalformedNameIgnored(m: string, uri: string, a: nat, b: nat, before: seq<string>, line: string,
                             after: seq<string>, body: string, lookup: string -> GetAnswer)
    requires a >= 1 && MethodOf(m) != UNKNOWN && ValidPath(uri)
    requires forall k | 0 <= k < |before| :: FieldLine(before[k])
    requires forall k | 0 <= k < |after| :: FieldLine(after[k])
    requires FieldLine(line) && !Token(NameOf(line)) && ':' in line
    ensures OneShot(RenderHeader(m, uri, a, b, before + [line] + after) + body, START, lookup).(pos := 0)
            == OneShot(RenderHeader(m, uri, a, b, before + after) + body, START, lookup).(pos := 0)
  {
    hide OneShot, RenderHeader, ApplyLines, AfterLines;
    var p := LineParsed(m, uri, a, b);
    RenderParse(m, uri, a, b, before + [line] + after, body, lookup);
    RenderParse(m, uri, a, b, before + after, body, lookup);
    IgnoredLine(p, p, before, line, after);
    AfterSame(p, before + [line] + after, before + after, lookup);
  }

  lemma AfterSame(p: Parse, some: seq<string>, others: seq<string>, lookup: string -> GetAnswer)
    requires ApplyLines(p, some).(pos := 0) == ApplyLines(p, others).(pos := 0)
    ensures AfterLines(p, some, lookup).(pos := 0) == AfterLines(p, others, lookup).(pos := 0)
  {
    hide ApplyLines, OpenFailure;
  }

  /** The two requests of the repository's test for malformed names: neither is answered with 400. */
  lemma BadKeyRequests(lookup: string -> GetAnswer)
    ensures OneShot(RenderHeader("GET", "/foo", 1, 0, ["K1: val", "K 2: val"]), START, lookup).status != BAD_REQUEST
    ensures OneShot(RenderHeader("GET", "/foo", 1, 0, ["K1: val", ": 4000"]), START, lookup).status != BAD_REQUEST
  {
    hide NameOf, ParseHf, OneShot, RenderHeader, Rejected, OneLine;
    OtherNameKept("K1", " val", "K1: val");
    OtherNameKept("K 2", " val", "K 2: val");
    OtherNameKept("", " 4000", ": 4000");
    PlainGet(["K1: val", "K 2: val"], lookup);
    PlainGet(["K1: val", ": 4000"], lookup);
  }

  lemma OtherNameKept(key: string, value: string, line: string)
    requires ':' !in key && key != "Content-Length" && key != "RequestID" && line == key + ":" + value
    requires '\r' !in line
    ensures FieldLine(line) && !Rejected(line)
  {
    PlainIsOneLine(line);
    OtherName(START, key, value, line);
  }

  lemma PlainGet(lines: seq<string>, lookup: string -> GetAnswer)
    requires forall k | 0 <= k < |lines| :: FieldLine(lines[k]) && !Rejected(lines[k])
    ensures OneShot(RenderHeader("GET", "/foo", 1, 0, lines), START, lookup).status != BAD_REQUEST
  {
    hide OneShot, RenderHeader, Rejected;
    HeaderRejectedExactly("GET", "/foo", 1, 0, lines, "", lookup);
    assert RenderHeader("GET", "/foo", 1, 0, lines) + "" == RenderHeader("GET", "/foo", 1, 0, lines);
  }
}
