/** What the parser makes of requests written out in bytes: methods, header lines and framing. */
module RequestBytes {
  import opened Bytes
  import opened Decimal
  import opened Grammar
  import opened RequestParser

  const METHODS: map<HttpMethod, bytes> := map[
    GET := "GET", POST := "POST", HEAD := "HEAD", PUT := "PUT", DEL := "DELETE", OPTIONS := "OPTIONS", PATCH := "PATCH"]

  lemma TokenInBytes(verb: HttpMethod)
    ensures verb in METHODS <==> !verb.INVALID?
    ensures verb in METHODS ==> Token(verb) == METHODS[verb] && '\r' !in METHODS[verb]
  {}

  ghost predicate IsRequestLine(line: bytes, verb: HttpMethod, path: bytes, version: bytes) {
    verb in METHODS && ' ' !in path && line == METHODS[verb] + " " + path + " " + version
  }

  /** A request line is accepted exactly when it is one of the seven words, a path without spaces and
      a version, with single spaces between them; and it sets the three accordingly. */
  lemma RequestLineExactly(r: Request, line: bytes)
    ensures ReadRequestLine(r, line).1 <==> exists verb, path, version :: IsRequestLine(line, verb, path, version)
    ensures forall verb, path, version :: IsRequestLine(line, verb, path, version) ==>
              ReadRequestLine(r, line).0 == r.(verb := verb, path := path, version := version)
  {
    forall verb, path, version | IsRequestLine(line, verb, path, version)
      ensures ReadRequestLine(r, line) == (r.(verb := verb, path := path, version := version), true)
    {
      TokenInBytes(verb);
      ReadPrintedRequestLine(r, Message(verb, path, version, [], ""));
    }
    if ReadRequestLine(r, line).1 {
      RequestLineSplits(r, line);
      var r1 := ReadRequestLine(r, line).0;
      TokenInBytes(r1.verb);
      assert IsRequestLine(line, r1.verb, r1.path, r1.version);
    }
  }

  lemma TwoWords(first: bytes, second: bytes)
    requires ' ' !in first && ' ' !in second && '\r' !in first && '\r' !in second
    ensures var line := first + " " + second;
            && IndexOf(line, ' ') == |first| && line[..|first|] == first && line[|first| + 1..] == second
            && IndexOf(second, ' ') == |second| && NoCrlf(line)
  {
    var line := first + " " + second;
    assert line[..|first|] == first && line[|first| + 1..] == second;
    IndexOfIs(line, ' ', |first|);
    assert second[..|second|] == second;
    IndexOfIs(second, ' ', |second|);
    NoReturnNoCrlf(line);
  }

  /** A line with a known word and no second space is rejected, but leaves the method behind. */
  lemma RejectedLineLeavesMethod(verb: HttpMethod, word: bytes, t: bytes)
    requires verb in METHODS && ' ' !in word && '\r' !in word
    ensures var b := METHODS[verb] + " " + word + "\r\n" + t;
            ParseBytes(FRESH, b) == Parsed(FRESH.(verb := verb), b, Unfinished)
  {
    var line := METHODS[verb] + " " + word;
    TokenInBytes(verb);
    MethodOfToken(verb);
    TwoWords(METHODS[verb], word);
    FindCrlfAfterLine(line, t);
  }

  /** A header line binds its name to its value, up to the letter. */
  lemma HeaderLineInBytes(r: Request, name: bytes, value: bytes, t: bytes)
    requires r.state.HEADERS? && ':' !in name && '\r' !in name && '\r' !in value && (value == "" || value[0] != ' ')
    ensures ParseBytes(r, name + ": " + value + "\r\n" + t) == ParseBytes(r.(headers := r.headers[name := value]), t)
  {
    var f := Field(name, 1, value);
    assert PrintField(f) == name + ": " + value;
    NoReturnNoCrlf(PrintField(f));
    ParsePrintedField(r, f, t);
  }

  /** What the blank line and the bytes after it do: without a header of exactly the name Content-Length
      there is no body; with one, that many bytes are the body, or the wait goes on, or the value is no
      number and the parser throws. */
  predicate FramedByLength(headers: map<bytes, bytes>, x: bytes, p: Parsed) {
    if "Content-Length" !in headers then p.outcome.Finished? && p.request.body == "" && p.rest == x
    else
      var length := Stoull(headers["Content-Length"]);
      if !length.Number? then p.outcome.Threw?
      else if |x| < length.n then p.outcome.Unfinished?
      else p.outcome.Finished? && p.request.body == x[..length.n] && p.rest == x[length.n..]
  }

  lemma BlankLineFrames(r: Request, x: bytes)
    requires r.state.HEADERS? && r.body == ""
    ensures FramedByLength(r.headers, x, ParseBytes(r, CRLF + x))
    ensures ParseBytes(r, CRLF + x).request.headers == r.headers
  {
    BlankLine(r, x);
  }

  /** Framing by that header, for every head and whatever follows it. */
  lemma LengthDecides(m: Message, x: bytes)
    requires ValidHead(m)
    ensures var p := ParseBytes(FRESH, PrintHead(m) + ("\r\n" + x));
            FramedByLength(p.request.headers, x, p) && p.request.headers == Bind(map[], m.fields)
    ensures "Content-Length" in Bind(map[], m.fields) <==>
            exists i :: 0 <= i < |m.fields| && m.fields[i].name == "Content-Length"
  {
    BindsLastOccurrence(map[], m.fields, "Content-Length");
    ParsePrintedHead(m, CRLF + x);
    BlankLineFrames(AfterHead(m), x);
  }

  lemma LineHasNoCrlf(word: bytes, path: bytes, version: bytes)
    requires '\r' !in word && '\r' !in path && '\r' !in version
    ensures NoCrlf(word + " " + path + " " + version)
  {
    NoReturnNoCrlf(word + " " + path + " " + version);
  }

  lemma HeadInBytes(verb: HttpMethod, path: bytes, version: bytes, more: bytes)
    requires verb in METHODS && ' ' !in path && '\r' !in path && '\r' !in version
    ensures ParseBytes(FRESH, METHODS[verb] + " " + path + " " + version + "\r\n" + more)
            == ParseBytes(FRESH.(verb := verb, path := path, version := version, state := HEADERS), more)
  {
    var line := METHODS[verb] + " " + path + " " + version;
    TokenInBytes(verb);
    assert IsRequestLine(line, verb, path, version);
    RequestLineExactly(FRESH, line);
    LineHasNoCrlf(METHODS[verb], path, version);
    ParseRequestLine(FRESH, line, more);
  }

  lemma LengthThenBody(r: Request, body: bytes, t: bytes)
    requires r.state.HEADERS? && r.headers == map[] && |body| < TWO_TO_THE_64
    ensures var length := ToString(|body|);
            ParseBytes(r, "Content-Length" + ": " + length + "\r\n" + (CRLF + body + t))
            == Parsed(r.(headers := map["Content-Length" := length], body := body, state := FINISH,
                         contentLength := |body|), t, Finished)
  {
    var length := ToString(|body|);
    assert forall i :: 0 <= i < |length| ==> IsDigit(length[i]);
    HeaderLineInBytes(r, "Content-Length", length, CRLF + body + t);
    StoullToString(|body|);
    ParseEnd(r.(headers := map["Content-Length" := length]), body, t);
  }

  /** A request with a body, in bytes: any method, path and version, any body of fewer than 2^64 bytes
      and whatever follows it. */
  lemma BodyInBytes(verb: HttpMethod, path: bytes, version: bytes, body: bytes, t: bytes)
    requires verb in METHODS && ' ' !in path && '\r' !in path && '\r' !in version
    requires |body| < 0x1_0000_0000_0000_0000
    ensures var length := ToString(|body|);
            ParseBytes(FRESH, METHODS[verb] + " " + path + " " + version
                              + "\r\n" + "Content-Length: " + length + "\r\n" + "\r\n" + body + t)
            == Parsed(Request(verb, path, version, map["Content-Length" := length], body, FINISH, |body|), t, Finished)
  {
    var length := ToString(|body|);
    HeadInBytes(verb, path, version, "Content-Length" + ": " + length + "\r\n" + (CRLF + body + t));
    LengthThenBody(FRESH.(verb := verb, path := path, version := version, state := HEADERS), body, t);
    assert "Content-Length" + ": " == "Content-Length: ";
    InParts(METHODS[verb] + " " + path + " " + version + "\r\n", "Content-Length: ", length, "\r\n", body, t);
  }

  lemma InParts(a: bytes, b: bytes, c: bytes, d: bytes, e: bytes, f: bytes)
    ensures a + (b + c + d + (d + e + f)) == a + b + c + d + d + e + f
  {}
}
