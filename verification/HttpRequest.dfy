/** The resumable request parser of src/http/HttpRequest.cpp: its value, the value-level
    specification of one `Parse` call, and the class that updates its fields in place. */
module RequestParser {
  import opened Bytes
  import opened Decimal
  import opened BreBuffer

  datatype HttpMethod = INVALID | GET | POST | HEAD | PUT | DEL | OPTIONS | PATCH

  datatype ParseState = REQUEST_LINE | HEADERS | BODY | FINISH

  /** The parser's fields. */
  datatype Request = Request(
    verb: HttpMethod,
    path: bytes,
    version: bytes,
    headers: map<bytes, bytes>,
    body: bytes,
    state: ParseState,
    contentLength: nat)

  const FRESH := Request(INVALID, "", "", map[], "", REQUEST_LINE, 0)

  const CONTENT_LENGTH: bytes := "Content-Length"

  /** How a `Parse` call ends: it returns true, returns false, or `std::stoull` throws out of it. */
  datatype Outcome = Finished | Unfinished | Threw

  function MethodOf(token: bytes): HttpMethod {
    if token == "GET" then GET
    else if token == "POST" then POST
    else if token == "HEAD" then HEAD
    else if token == "PUT" then PUT
    else if token == "DELETE" then DEL
    else if token == "OPTIONS" then OPTIONS
    else if token == "PATCH" then PATCH
    else INVALID
  }

  /** The token that `MethodOf` accepts for a method. */
  function Token(m: HttpMethod): bytes {
    match m
    case INVALID => ""
    case GET => "GET"
    case POST => "POST"
    case HEAD => "HEAD"
    case PUT => "PUT"
    case DEL => "DELETE"
    case OPTIONS => "OPTIONS"
    case PATCH => "PATCH"
  }

  lemma TokenOfMethod(token: bytes)
    requires !MethodOf(token).INVALID?
    ensures Token(MethodOf(token)) == token
  {}

  lemma MethodOfToken(m: HttpMethod)
    requires !m.INVALID?
    ensures MethodOf(Token(m)) == m && ' ' !in Token(m) && '\r' !in Token(m) && '\n' !in Token(m)
  {}

  /** The fields after reading a request line, and whether it was accepted.
      A rejected line may already have changed the method. */
  function ReadRequestLine(r: Request, line: bytes): (Request, bool) {
    var space1 := IndexOf(line, ' ');
    if space1 == |line| then (r, false)
    else
      var r1 := r.(verb := MethodOf(line[..space1]));
      var target := line[space1 + 1..];
      var space2 := IndexOf(target, ' ');
      if r1.verb.INVALID? || space2 == |target| then (r1, false)
      else (r1.(path := target[..space2], version := target[space2 + 1..]), true)
  }

  function SkipSpaces(s: bytes): bytes {
    if s != "" && s[0] == ' ' then SkipSpaces(s[1..]) else s
  }

  function ReadHeader(r: Request, line: bytes): (Request, bool) {
    var colon := IndexOf(line, ':');
    if colon == |line| then (r, false)
    else (r.(headers := r.headers[line[..colon] := SkipSpaces(line[colon + 1..])]), true)
  }

  /** One pass of the loop in `Parse`: it goes round again or returns. */
  datatype Pass = Again(request: Request, rest: bytes) | Halt(request: Request, rest: bytes, outcome: Outcome)

  /** Every pass that goes round again has consumed at least two bytes. */
  function OnePass(r: Request, b: bytes): (p: Pass)
    ensures |p.rest| <= |b|
    ensures p.Again? ==> |p.rest| + 2 <= |b|
  {
    match r.state
    case REQUEST_LINE =>
      (match FindCrlf(b)
       case None => Halt(r, b, Unfinished)
       case Some(n) =>
         var (r1, ok) := ReadRequestLine(r, b[..n]);
         if ok then Again(r1.(state := HEADERS), b[n + 2..]) else Halt(r1, b, Unfinished))
    case HEADERS =>
      (match FindCrlf(b)
       case None => Halt(r, b, Unfinished)
       case Some(n) =>
         if n == 0 then EndOfHeaders(r, b[2..])
         else
           var (r1, ok) := ReadHeader(r, b[..n]);
           if ok then Again(r1, b[n + 2..]) else Halt(r1, b, Unfinished))
    case BODY =>
      if |b| >= r.contentLength
      then Halt(r.(body := b[..r.contentLength], state := FINISH), b[r.contentLength..], Finished)
      else Halt(r, b, Unfinished)
    case FINISH => Halt(r, b, Finished)
  }

  function EndOfHeaders(r: Request, b: bytes): Pass {
    if CONTENT_LENGTH in r.headers then
      var length := Stoull(r.headers[CONTENT_LENGTH]);
      if length.Number? then Again(r.(contentLength := length.n, state := BODY), b)
      else Halt(r, b, Threw)
    else Halt(r.(state := FINISH), b, Finished)
  }

  /** The parser, the unread bytes and the outcome after a `Parse` call. */
  datatype Parsed = Parsed(request: Request, rest: bytes, outcome: Outcome)

  function ParseBytes(r: Request, b: bytes): Parsed
    decreases |b|
  {
    match OnePass(r, b)
    case Again(r1, b1) => ParseBytes(r1, b1)
    case Halt(r1, b1, outcome) => Parsed(r1, b1, outcome)
  }

  /** How many times the loop of that call is entered. */
  function Passes(r: Request, b: bytes): (n: nat)
    decreases |b|
  {
    match OnePass(r, b)
    case Again(r1, b1) => 1 + Passes(r1, b1)
    case Halt(_, _, _) => 1
  }

  class HttpRequest {
    var verb: HttpMethod
    var path: bytes
    var version: bytes
    var headers: map<bytes, bytes>
    var body: bytes
    var parseState: ParseState
    var contentLength: nat

    function Value(): Request
      reads this
    {
      Request(verb, path, version, headers, body, parseState, contentLength)
    }

    constructor ()
      ensures Value() == FRESH
    {
      verb := INVALID;
      path, version, headers, body := "", "", map[], "";
      parseState, contentLength := REQUEST_LINE, 0;
    }

    method Reset()
      modifies this
      ensures Value() == FRESH
    {
      verb := INVALID;
      path, version, headers, body := "", "", map[], "";
      parseState, contentLength := REQUEST_LINE, 0;
    }

    /** The loop of src/http/HttpRequest.cpp:23-75, counted by `passes`. */
    method Parse(buffer: Buffer) returns (outcome: Outcome, ghost passes: nat)
      modifies this, buffer
      ensures Parsed(Value(), buffer.readable, outcome) == ParseBytes(old(Value()), old(buffer.readable))
      ensures passes == Passes(old(Value()), old(buffer.readable))
    {
      passes := 0;
      while true
        invariant ParseBytes(Value(), buffer.readable) == ParseBytes(old(Value()), old(buffer.readable))
        invariant passes + Passes(Value(), buffer.readable) == Passes(old(Value()), old(buffer.readable))
        decreases |buffer.readable|
      {
        passes := passes + 1;
        match parseState
        case REQUEST_LINE =>
          var crlf := FindCrlf(buffer.readable);
          if crlf.None? {
            return Unfinished, passes;
          }
          var ok := ParseRequestLine(buffer.readable[..crlf.value]);
          if !ok {
            return Unfinished, passes;
          }
          buffer.RetrieveUntil(crlf.value + 2);
          parseState := HEADERS;
        case HEADERS =>
          var crlf := FindCrlf(buffer.readable);
          if crlf.None? {
            return Unfinished, passes;
          }
          if crlf.value == 0 {
            buffer.RetrieveUntil(2);
            if CONTENT_LENGTH in headers {
              var length := Stoull(headers[CONTENT_LENGTH]);
              if !length.Number? {
                return Threw, passes;
              }
              contentLength := length.n;
              parseState := BODY;
            } else {
              parseState := FINISH;
              return Finished, passes;
            }
          } else {
            var ok := ParseHeader(buffer.readable[..crlf.value]);
            if !ok {
              return Unfinished, passes;
            }
            buffer.RetrieveUntil(crlf.value + 2);
          }
        case BODY =>
          if |buffer.readable| >= contentLength {
            body := buffer.RetrieveAsString(contentLength);
            parseState := FINISH;
            return Finished, passes;
          }
          return Unfinished, passes;
        case FINISH =>
          return Finished, passes;
      }
    }

    method ParseRequestLine(line: bytes) returns (ok: bool)
      modifies this
      ensures (Value(), ok) == ReadRequestLine(old(Value()), line)
    {
      var space1 := IndexOf(line, ' ');
      if space1 == |line| {
        return false;
      }
      verb := MethodOf(line[..space1]);
      if verb == INVALID {
        return false;
      }
      var target := line[space1 + 1..];
      var space2 := IndexOf(target, ' ');
      if space2 == |target| {
        return false;
      }
      path := target[..space2];
      version := target[space2 + 1..];
      return true;
    }

    method ParseHeader(line: bytes) returns (ok: bool)
      modifies this
      ensures (Value(), ok) == ReadHeader(old(Value()), line)
    {
      var colon := IndexOf(line, ':');
      if colon == |line| {
        return false;
      }
      var valueStart := colon + 1;
      while valueStart < |line| && line[valueStart] == ' '
        invariant colon < valueStart <= |line|
        invariant SkipSpaces(line[valueStart..]) == SkipSpaces(line[colon + 1..])
      {
        assert line[valueStart..][1..] == line[valueStart + 1..];
        valueStart := valueStart + 1;
      }
      headers := headers[line[..colon] := line[valueStart..]];
      return true;
    }

    /** `GetHeader`: the empty string stands for a missing header. */
    function GetHeader(key: bytes): bytes
      reads this
    {
      HeaderOf(Value(), key)
    }
  }

  function HeaderOf(r: Request, key: bytes): bytes {
    if key in r.headers then r.headers[key] else ""
  }
}
