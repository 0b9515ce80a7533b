/** What the response printer writes, the request parser reads back in its HEADERS and BODY states. */
module ResponseRoundTrip {
  import opened Bytes
  import opened Decimal
  import opened RequestParser
  import opened Grammar
  import opened ResponseBuilder

  /** A header that survives being printed and read. */
  ghost predicate Clean(name: bytes, value: bytes) {
    ':' !in name && (value == "" || value[0] != ' ') && NoCrlf(name) && NoCrlf(value)
  }

  ghost predicate AllClean(headers: map<bytes, bytes>) {
    forall name :: name in headers ==> Clean(name, headers[name])
  }

  /** The parser waiting for the first header line, nothing read yet. */
  const AT_HEADERS := FRESH.(state := HEADERS)

  lemma CleanFieldIsValid(name: bytes, value: bytes)
    requires Clean(name, value)
    ensures ValidField(Field(name, 1, value))
  {
    var line := PrintField(Field(name, 1, value));
    assert line == name + ": " + value;
    forall i: nat ensures !CrlfAt(line, i) {
      assert !CrlfAt(name, i);
      if i >= |name| + 2 {
        assert !CrlfAt(value, i - |name| - 2);
      }
    }
  }

  /** Every iteration order gives back the same map. */
  lemma BindEnumerated(items: seq<Field>, headers: map<bytes, bytes>)
    requires Enumerates(items, headers)
    ensures Bind(map[], items) == headers
  {
    var bound := Bind(map[], items);
    forall name ensures name in bound <==> name in headers
                ensures name in bound && name in headers ==> bound[name] == headers[name] {
      BindsLastOccurrence(map[], items, name);
    }
  }

  lemma CompletedIsClean(r: Response)
    requires AllClean(r.headers)
    ensures AllClean(Completed(r).headers)
  {
    var length := ToString(|r.body|);
    assert forall i :: 0 <= i < |length| ==> IsDigit(length[i]);
    assert Clean(CONTENT_LENGTH, length);
    assert Clean(CONNECTION, KEEP_ALIVE) && Clean(CONNECTION, "close");
    assert Clean("Keep-Alive", "timeout=5, max=100");
  }

  /** Clean headers that announce the body's length, then the body, then anything. */
  lemma HeadersReadBack(headers: map<bytes, bytes>, items: seq<Field>, body: bytes, t: bytes)
    requires AllClean(headers) && Enumerates(items, headers) && |body| < TWO_TO_THE_64
    requires CONTENT_LENGTH in headers && headers[CONTENT_LENGTH] == ToString(|body|)
    ensures var read := AT_HEADERS.(state := FINISH, headers := headers, body := body, contentLength := |body|);
            ParseBytes(AT_HEADERS, PrintFields(items) + (CRLF + body + t)) == Parsed(read, t, Finished)
  {
    forall i | 0 <= i < |items| ensures ValidField(items[i]) {
      CleanFieldIsValid(items[i].name, headers[items[i].name]);
    }
    ParsePrintedFields(AT_HEADERS, items, CRLF + body + t);
    BindEnumerated(items, headers);
    StoullToString(|body|);
    ParseEnd(AT_HEADERS.(headers := headers), body, t);
  }

  /** Printer and parser agree: the headers, the body and whatever follows come back, in whatever
      order the map was iterated, and also when the body is empty. */
  lemma PrinterParserAgree(r: Response, items: seq<Field>, t: bytes)
    requires AllClean(r.headers) && Enumerates(items, Completed(r).headers) && |r.body| < TWO_TO_THE_64
    ensures var headers := Completed(r).headers;
            var read := AT_HEADERS.(state := FINISH, headers := headers, body := r.body, contentLength := |r.body|);
            ParseBytes(AT_HEADERS, PrintFields(items) + (CRLF + r.body + t)) == Parsed(read, t, Finished)
  {
    CompletedIsClean(r);
    HeadersReadBack(Completed(r).headers, items, r.body, t);
  }

  /** The parser never stores a header that is not clean. */
  lemma {:induction false} ParserStoresCleanHeaders(r: Request, b: bytes)
    requires AllClean(r.headers)
    ensures AllClean(ParseBytes(r, b).request.headers)
    decreases |b|
  {
    if r.state.HEADERS? && FindCrlf(b).Some? {
      FirstLine(b);
      ReadHeaderIsClean(r, b[..FindCrlf(b).value]);
    }
    match OnePass(r, b)
    case Again(r1, b1) => ParserStoresCleanHeaders(r1, b1);
    case Halt(_, _, _) =>
  }

  lemma ReadHeaderIsClean(r: Request, line: bytes)
    requires AllClean(r.headers) && NoCrlf(line)
    ensures AllClean(ReadHeader(r, line).0.headers)
  {
    var colon := IndexOf(line, ':');
    if colon < |line| {
      var s := line[colon + 1..];
      SkipSpacesSplits(s);
      var name, value := line[..colon], SkipSpaces(s);
      var k := colon + 1 + |s| - |value|;
      assert value == line[k..];
      forall i: nat ensures !CrlfAt(name, i) && !CrlfAt(value, i) {
        assert !CrlfAt(line, i) && !CrlfAt(line, k + i);
      }
    }
  }

  ghost predicate ReadsBack(headers: map<bytes, bytes>, items: seq<Field>, body: bytes) {
    var p := ParseBytes(AT_HEADERS, PrintFields(items) + (CRLF + body));
    p.outcome.Finished? && p.request.headers == headers && p.request.body == body && p.rest == ""
  }

  /** The agreement is exact: a printed response reads back if and only if its headers are clean. */
  lemma ReadsBackExactlyWhenClean(r: Response, items: seq<Field>)
    requires Enumerates(items, Completed(r).headers) && |r.body| < TWO_TO_THE_64
    ensures ReadsBack(Completed(r).headers, items, r.body) <==> AllClean(Completed(r).headers)
  {
    var headers := Completed(r).headers;
    if ReadsBack(headers, items, r.body) {
      ParserStoresCleanHeaders(AT_HEADERS, PrintFields(items) + (CRLF + r.body));
    }
    if AllClean(headers) {
      HeadersReadBack(headers, items, r.body, "");
      assert CRLF + r.body + "" == CRLF + r.body;
    }
  }

  lemma StatusLineHasNoCrlf(status: HttpStatus)
    ensures NoCrlf(StatusLine(status))
  {
    var code := ToString(Code(status));
    assert forall i :: 0 <= i < |code| ==> IsDigit(code[i]);
    NotInConcat('\r', "HTTP/1.1 ", code);
    NotInConcat('\r', "HTTP/1.1 " + code, " ");
    NotInConcat('\r', "HTTP/1.1 " + code + " ", StatusMessage(status));
    NoReturnNoCrlf(StatusLine(status));
  }

  /** How a client reads the status code: the number after the version. */
  function ReadCode(line: bytes): Conversion {
    if |line| < 9 then InvalidArgument else Stoull(line[9..])
  }

  lemma AfterVersion(code: bytes, message: bytes)
    ensures ("HTTP/1.1 " + code + " " + message)[9..] == code + (" " + message)
  {}

  /** The status code of every status line is read back. */
  lemma StatusIsReadBack(status: HttpStatus)
    ensures ReadCode(StatusLine(status)) == Number(Code(status))
  {
    AfterVersion(ToString(Code(status)), StatusMessage(status));
    StoullOfNumber(Code(status), " " + StatusMessage(status));
  }

  /** No two statuses print the same line. */
  lemma StatusLinesDiffer(a: HttpStatus, b: HttpStatus)
    requires StatusLine(a) == StatusLine(b)
    ensures a == b
  {
    StatusIsReadBack(a);
    StatusIsReadBack(b);
  }

  lemma ContentTypeIsClean(ext: bytes)
    ensures Clean(CONTENT_TYPE, ContentTypeOf(ext))
  {
    NoReturnNoCrlf(ContentTypeOf(ext));
  }

  /** A reader of responses: the status line up to its CR LF, then the request parser. */
  function ReadReply(b: bytes): Parsed {
    match FindCrlf(b)
    case None => Parsed(AT_HEADERS, b, Unfinished)
    case Some(n) => ParseBytes(AT_HEADERS, b[n + 2..])
  }

  lemma ReadRenderedReply(r: Response, items: seq<Field>, t: bytes)
    requires AllClean(r.headers) && Enumerates(items, Completed(r).headers) && |r.body| < TWO_TO_THE_64
    ensures var p := ReadReply(Rendered(Completed(r), items) + t);
            p.outcome.Finished? && p.request.headers == Completed(r).headers && p.request.body == r.body && p.rest == t
  {
    var more := PrintFields(items) + CRLF + r.body;
    RegroupLine(StatusLine(r.status), more, t);
    StatusLineHasNoCrlf(r.status);
    ReadAfterLine(StatusLine(r.status), more + t);
    Regroup(PrintFields(items), CRLF, r.body);
    Regroup(PrintFields(items), CRLF + r.body, t);
    PrinterParserAgree(r, items, t);
  }

  lemma ReadAfterLine(line: bytes, t: bytes)
    requires NoCrlf(line)
    ensures ReadReply(line + CRLF + t) == ParseBytes(AT_HEADERS, t)
  {
    FindCrlfAfterLine(line, t);
  }
}
