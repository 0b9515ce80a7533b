/** The response printer of src/http/HttpResponse.cpp. */
module ResponseBuilder {
  import opened Bytes
  import opened Decimal
  import opened BreBuffer
  import opened RequestParser
  import opened Grammar

  datatype HttpStatus = OK | CREATED | NO_CONTENT | MOVED_PERMANENTLY | FOUND | NOT_MODIFIED | BAD_REQUEST
    | UNAUTHORIZED | FORBIDDEN | NOT_FOUND | METHOD_NOT_ALLOWED | CONFLICT | INTERNAL_SERVER_ERROR
    | NOT_IMPLEMENTED | SERVICE_UNAVAILABLE

  function Code(status: HttpStatus): nat {
    match status
    case OK => 200
    case CREATED => 201
    case NO_CONTENT => 204
    case MOVED_PERMANENTLY => 301
    case FOUND => 302
    case NOT_MODIFIED => 304
    case BAD_REQUEST => 400
    case UNAUTHORIZED => 401
    case FORBIDDEN => 403
    case NOT_FOUND => 404
    case METHOD_NOT_ALLOWED => 405
    case CONFLICT => 409
    case INTERNAL_SERVER_ERROR => 500
    case NOT_IMPLEMENTED => 501
    case SERVICE_UNAVAILABLE => 503
  }

  function StatusMessage(status: HttpStatus): (message: bytes)
    ensures '\r' !in message
  {
    match status
    case OK => "OK"
    case CREATED => "Created"
    case NO_CONTENT => "No Content"
    case MOVED_PERMANENTLY => "Moved Permanently"
    case FOUND => "Found"
    case NOT_MODIFIED => "Not Modified"
    case BAD_REQUEST => "Bad Request"
    case UNAUTHORIZED => "Unauthorized"
    case FORBIDDEN => "Forbidden"
    case NOT_FOUND => "Not Found"
    case METHOD_NOT_ALLOWED => "Method Not Allowed"
    case CONFLICT => "Conflict"
    case INTERNAL_SERVER_ERROR => "Internal Server Error"
    case NOT_IMPLEMENTED => "Not Implemented"
    case SERVICE_UNAVAILABLE => "Service Unavailable"
  }

  function ContentTypeOf(ext: bytes): (value: bytes)
    ensures value != "" && value[0] != ' ' && '\r' !in value
  {
    if ext == ".html" || ext == ".htm" then "text/html; charset=utf-8"
    else if ext == ".css" then "text/css"
    else if ext == ".js" then "application/javascript"
    else if ext == ".json" then "application/json"
    else if ext == ".xml" then "application/xml"
    else if ext == ".jpg" || ext == ".jpeg" then "image/jpeg"
    else if ext == ".png" then "image/png"
    else if ext == ".gif" then "image/gif"
    else if ext == ".svg" then "image/svg+xml"
    else if ext == ".ico" then "image/x-icon"
    else if ext == ".txt" then "text/plain"
    else if ext == ".pdf" then "application/pdf"
    else if ext == ".zip" then "application/zip"
    else if ext == ".mp4" then "video/mp4"
    else if ext == ".mp3" then "audio/mpeg"
    else "application/octet-stream"
  }

  /** The fields of a response. */
  datatype Response = Response(status: HttpStatus, headers: map<bytes, bytes>, body: bytes, keepAlive: bool)

  const EMPTY_RESPONSE := Response(OK, map[], "", false)
  const CONTENT_TYPE: bytes := "Content-Type"
  const CONNECTION: bytes := "Connection"
  const KEEP_ALIVE: bytes := "keep-alive"

  function ErrorPage(status: HttpStatus, message: bytes): bytes {
    "<html><head><title>Error</title></head><body>"
    + "<h1>" + ToString(Code(status)) + " " + StatusMessage(status) + "</h1>"
    + (if message != "" then "<p>" + message + "</p>" else "")
    + "</body></html>"
  }

  function ErrorResponse(status: HttpStatus, message: bytes): Response {
    Response(status, map[CONTENT_TYPE := "text/html; charset=utf-8"], ErrorPage(status, message), false)
  }

  function JsonResponse(json: bytes): Response {
    Response(OK, map[CONTENT_TYPE := "application/json; charset=utf-8"], json, false)
  }

  /** The response after `Build` has added its own headers. */
  function Completed(r: Response): Response {
    var h := if r.keepAlive
             then r.headers[CONNECTION := KEEP_ALIVE]["Keep-Alive" := "timeout=5, max=100"]
             else r.headers[CONNECTION := "close"];
    r.(headers := h[CONTENT_LENGTH := ToString(|r.body|)])
  }

  function StatusLine(status: HttpStatus): bytes {
    "HTTP/1.1 " + ToString(Code(status)) + " " + StatusMessage(status)
  }

  /** `items` lists the entries of the map once each, in some iteration order, as printed lines. */
  ghost predicate Enumerates(items: seq<Field>, headers: map<bytes, bytes>) {
    && (forall i :: 0 <= i < |items| ==>
          items[i].name in headers && items[i] == Field(items[i].name, 1, headers[items[i].name]))
    && (forall i, j :: 0 <= i < j < |items| ==> items[i].name != items[j].name)
    && (forall key :: key in headers ==> exists i :: 0 <= i < |items| && items[i].name == key)
  }

  /** `items` lists the entries whose keys are not in `todo`. */
  ghost predicate Listed(items: seq<Field>, headers: map<bytes, bytes>, todo: set<bytes>) {
    todo <= headers.Keys && Enumerates(items, headers - todo)
  }

  lemma ListOneMore(items: seq<Field>, headers: map<bytes, bytes>, todo: set<bytes>, key: bytes)
    requires Listed(items, headers, todo) && key in todo
    ensures Listed(items + [Field(key, 1, headers[key])], headers, todo - {key})
  {
    var more, left := items + [Field(key, 1, headers[key])], headers - (todo - {key});
    forall k | k in left ensures exists i :: 0 <= i < |more| && more[i].name == k {
      if k == key {
        assert more[|items|].name == k;
      } else {
        assert k in headers - todo;
        var i :| 0 <= i < |items| && items[i].name == k;
        assert more[i].name == k;
      }
    }
  }

  /** What `Build` appends when the headers are iterated in the order of `items`. */
  function Rendered(r: Response, items: seq<Field>): bytes {
    StatusLine(r.status) + CRLF + (PrintFields(items) + CRLF + r.body)
  }

  lemma AppendedInParts(before: bytes, line: bytes, lines: bytes, body: bytes)
    ensures before + (line + CRLF) + lines + CRLF + body == before + (line + CRLF + (lines + CRLF + body))
  {}

  lemma {:induction false} PrintFieldsSnoc(fs: seq<Field>, f: Field)
    ensures PrintFields(fs + [f]) == PrintFields(fs) + PrintField(f) + CRLF
    decreases |fs|
  {
    if fs == [] {
      assert [f][1..] == [];
    } else {
      assert (fs + [f])[1..] == fs[1..] + [f];
      PrintFieldsSnoc(fs[1..], f);
    }
  }

  lemma PrintOneMore(items: seq<Field>, key: bytes, value: bytes)
    ensures PrintFields(items + [Field(key, 1, value)]) == PrintFields(items) + (key + ": " + value + CRLF)
  {
    var f := Field(key, 1, value);
    PrintFieldsSnoc(items, f);
    assert PrintField(f) == key + ": " + value;
    Regroup(PrintFields(items), PrintField(f), CRLF);
  }

  class HttpResponse {
    var status: HttpStatus
    var headers: map<bytes, bytes>
    var body: bytes
    var keepAlive: bool

    function Value(): Response
      reads this
    {
      Response(status, headers, body, keepAlive)
    }

    constructor ()
      ensures Value() == EMPTY_RESPONSE
    {
      status, headers, body, keepAlive := OK, map[], "", false;
    }

    method SetStatus(status: HttpStatus)
      modifies this
      ensures Value() == old(Value()).(status := status)
    {
      this.status := status;
    }

    method SetBody(body: bytes)
      modifies this
      ensures Value() == old(Value()).(body := body)
    {
      this.body := body;
    }

    method AddHeader(key: bytes, value: bytes)
      modifies this
      ensures Value() == old(Value()).(headers := old(headers)[key := value])
    {
      headers := headers[key := value];
    }

    method SetKeepAlive(keepAlive: bool)
      modifies this
      ensures Value() == old(Value()).(keepAlive := keepAlive)
    {
      this.keepAlive := keepAlive;
    }

    /** `LoadFile`, where `content` is what the file holds if it can be opened. */
    method LoadFile(ext: bytes, content: Option<bytes>) returns (ok: bool)
      modifies this
      ensures ok <==> content.Some?
      ensures Value() == if ok
                         then old(Value()).(body := content.value,
                                            headers := old(headers)[CONTENT_TYPE := ContentTypeOf(ext)])
                         else old(Value())
    {
      if content.None? {
        return false;
      }
      body := content.value;
      AddHeader(CONTENT_TYPE, ContentTypeOf(ext));
      return true;
    }

    /** Prints the response. */
    method Build(buffer: Buffer) returns (ghost items: seq<Field>)
      modifies this, buffer
      ensures Value() == Completed(old(Value()))
      ensures Enumerates(items, headers)
      ensures buffer.readable == old(buffer.readable) + Rendered(Value(), items)
    {
      buffer.Append(StatusLine(status) + CRLF);
      AddOwnHeaders();
      items := AppendHeaders(buffer);
      buffer.Append(CRLF);
      if body != "" {
        buffer.Append(body);
      }
      AppendedInParts(old(buffer.readable), StatusLine(status), PrintFields(items), body);
    }

    method AddOwnHeaders()
      modifies this
      ensures Value() == Completed(old(Value()))
    {
      if keepAlive {
        AddHeader(CONNECTION, KEEP_ALIVE);
        AddHeader("Keep-Alive", "timeout=5, max=100");
      } else {
        AddHeader(CONNECTION, "close");
      }
      AddHeader(CONTENT_LENGTH, ToString(|body|));
    }

    /** The loop over the unordered map, in an order Dafny is free to choose. */
    method AppendHeaders(buffer: Buffer) returns (ghost items: seq<Field>)
      modifies buffer
      ensures Enumerates(items, headers)
      ensures buffer.readable == old(buffer.readable) + PrintFields(items)
    {
      var todo := headers.Keys;
      items := [];
      while todo != {}
        invariant Listed(items, headers, todo)
        invariant buffer.readable == old(buffer.readable) + PrintFields(items)
        decreases |todo|
      {
        var key :| key in todo;
        buffer.Append(key + ": " + headers[key] + CRLF);
        ghost var f := Field(key, 1, headers[key]);
        PrintOneMore(items, key, headers[key]);
        ListOneMore(items, headers, todo, key);
        items := items + [f];
        todo := todo - {key};
      }
      assert headers - todo == headers;
    }

    static method MakeErrorResponse(status: HttpStatus, message: bytes) returns (r: HttpResponse)
      ensures fresh(r) && r.Value() == ErrorResponse(status, message)
    {
      r := new HttpResponse();
      r.SetStatus(status);
      r.AddHeader(CONTENT_TYPE, "text/html; charset=utf-8");
      var page := "<html><head><title>Error</title></head><body>";
      page := page + "<h1>" + ToString(Code(status)) + " " + StatusMessage(status) + "</h1>";
      if message != "" {
        page := page + "<p>" + message + "</p>";
      }
      page := page + "</body></html>";
      r.SetBody(page);
    }

    static method MakeJsonResponse(json: bytes) returns (r: HttpResponse)
      ensures fresh(r) && r.Value() == JsonResponse(json)
    {
      r := new HttpResponse();
      r.SetStatus(OK);
      r.AddHeader(CONTENT_TYPE, "application/json; charset=utf-8");
      r.SetBody(json);
    }
  }
}
