/** The messages the parser accepts, as a grammar over abstract messages: request line, header
    lines, blank line and body of the form of RFC 9112 sections 2.1, 3, 5 and 6.2, as liberal
    as the code is. The parser accepts exactly this language and frames it in one way only. */
module Grammar {
  import opened Bytes
  import opened Decimal
  import opened RequestParser

  /** A header line: name, colon, `pad` spaces, value. */
  datatype Field = Field(name: bytes, pad: nat, value: bytes)

  datatype Message = Message(verb: HttpMethod, path: bytes, version: bytes, fields: seq<Field>, body: bytes)

  function Spaces(n: nat): (s: bytes)
    ensures |s| == n && forall i :: 0 <= i < n ==> s[i] == ' '
  {
    seq(n, _ => ' ')
  }

  function PrintField(f: Field): bytes {
    f.name + ":" + Spaces(f.pad) + f.value
  }

  function PrintFields(fs: seq<Field>): bytes {
    if fs == [] then "" else PrintField(fs[0]) + CRLF + PrintFields(fs[1..])
  }

  function PrintRequestLine(m: Message): bytes {
    Token(m.verb) + " " + m.path + " " + m.version
  }

  function PrintHead(m: Message): bytes {
    PrintRequestLine(m) + CRLF + PrintFields(m.fields)
  }

  function Print(m: Message): bytes {
    PrintHead(m) + CRLF + m.body
  }

  ghost predicate ValidField(f: Field) {
    ':' !in f.name && (f.value == "" || f.value[0] != ' ') && NoCrlf(PrintField(f))
  }

  ghost predicate ValidFields(fs: seq<Field>) {
    forall i :: 0 <= i < |fs| ==> ValidField(fs[i])
  }

  /** The headers after the given lines: a name repeated later is overwritten. */
  function Bind(headers: map<bytes, bytes>, fs: seq<Field>): map<bytes, bytes>
    decreases |fs|
  {
    if fs == [] then headers else Bind(headers[fs[0].name := fs[0].value], fs[1..])
  }

  /** The body length that the headers announce is a number, and is the length of `body`. */
  predicate BodyFits(headers: map<bytes, bytes>, body: bytes) {
    if CONTENT_LENGTH in headers then Stoull(headers[CONTENT_LENGTH]) == Number(|body|) else body == ""
  }

  ghost predicate ValidHead(m: Message) {
    !m.verb.INVALID? && ' ' !in m.path && NoCrlf(PrintRequestLine(m)) && ValidFields(m.fields)
  }

  ghost predicate Valid(m: Message) {
    ValidHead(m) && BodyFits(Bind(map[], m.fields), m.body)
  }

  /** The parser's fields when the head has been read and the blank line is next. */
  function AfterHead(m: Message): Request {
    Request(m.verb, m.path, m.version, Bind(map[], m.fields), "", HEADERS, 0)
  }

  /** The parser's fields once the message has been read. */
  function Meaning(m: Message): Request {
    var headers := Bind(map[], m.fields);
    Request(m.verb, m.path, m.version, headers, m.body, FINISH, if CONTENT_LENGTH in headers then |m.body| else 0)
  }

  // --- What one line means -------------------------------------------------------------------

  lemma {:induction false} SkipSpacesPrinted(k: nat, v: bytes)
    requires v == "" || v[0] != ' '
    ensures SkipSpaces(Spaces(k) + v) == v
    decreases k
  {
    if k == 0 {
      assert Spaces(0) + v == v;
    } else {
      assert (Spaces(k) + v)[1..] == Spaces(k - 1) + v;
      SkipSpacesPrinted(k - 1, v);
    }
  }

  lemma {:induction false} SkipSpacesSplits(s: bytes)
    ensures var v := SkipSpaces(s);
            |v| <= |s| && (v == "" || v[0] != ' ') && s == Spaces(|s| - |v|) + v
    decreases |s|
  {
    if s != "" && s[0] == ' ' {
      SkipSpacesSplits(s[1..]);
      var v := SkipSpaces(s[1..]);
      assert s == [' '] + s[1..] == Spaces(|s| - |v|) + v;
    } else {
      assert Spaces(0) + s == s;
    }
  }

  lemma ReadPrintedField(r: Request, f: Field)
    requires ValidField(f)
    ensures ReadHeader(r, PrintField(f)) == (r.(headers := r.headers[f.name := f.value]), true)
  {
    var line := PrintField(f);
    assert line[..|f.name|] == f.name;
    IndexOfIs(line, ':', |f.name|);
    assert line[|f.name| + 1..] == Spaces(f.pad) + f.value;
    SkipSpacesPrinted(f.pad, f.value);
  }

  /** A header line that the parser takes is the print of exactly one field. */
  function FieldOf(line: bytes): Field {
    var colon := IndexOf(line, ':');
    if colon == |line| then Field(line, 0, "")
    else
      var s := line[colon + 1..];
      Field(line[..colon], if |s| >= |SkipSpaces(s)| then |s| - |SkipSpaces(s)| else 0, SkipSpaces(s))
  }

  lemma FieldOfLine(line: bytes)
    requires NoCrlf(line) && ':' in line
    ensures ValidField(FieldOf(line)) && PrintField(FieldOf(line)) == line
  {
    var colon := IndexOf(line, ':');
    assert line[..|line|] == line;
    SplitAtFirst(line, ':');
    var name, s := line[..colon], line[colon + 1..];
    SkipSpacesSplits(s);
    Regroup(name + ":", Spaces(|s| - |SkipSpaces(s)|), SkipSpaces(s));
  }

  lemma FieldOfPrinted(f: Field)
    requires ValidField(f)
    ensures FieldOf(PrintField(f)) == f
  {
    var line := PrintField(f);
    assert line[..|f.name|] == f.name;
    IndexOfIs(line, ':', |f.name|);
    assert line[|f.name| + 1..] == Spaces(f.pad) + f.value;
    SkipSpacesPrinted(f.pad, f.value);
  }

  lemma ReadPrintedRequestLine(r: Request, m: Message)
    requires !m.verb.INVALID? && ' ' !in m.path
    ensures ReadRequestLine(r, PrintRequestLine(m))
         == (r.(verb := m.verb, path := m.path, version := m.version), true)
  {
    var line := PrintRequestLine(m);
    var token := Token(m.verb);
    MethodOfToken(m.verb);
    assert line[..|token|] == token;
    IndexOfIs(line, ' ', |token|);
    var target := line[|token| + 1..];
    assert target == m.path + " " + m.version;
    assert target[..|m.path|] == m.path;
    IndexOfIs(target, ' ', |m.path|);
    assert target[|m.path| + 1..] == m.version;
  }

  /** An accepted request line is the print of the three values read from it. */
  lemma RequestLineSplits(r: Request, line: bytes)
    requires ReadRequestLine(r, line).1
    ensures var r1 := ReadRequestLine(r, line).0;
            var m := Message(r1.verb, r1.path, r1.version, [], "");
            !m.verb.INVALID? && ' ' !in m.path && PrintRequestLine(m) == line
            && r1 == r.(verb := m.verb, path := m.path, version := m.version)
  {
    var space1 := IndexOf(line, ' ');
    SplitAtFirst(line, ' ');
    var target := line[space1 + 1..];
    var space2 := IndexOf(target, ' ');
    SplitAtFirst(target, ' ');
    TokenOfMethod(line[..space1]);
    ThreeWords(line[..space1], target[..space2], target[space2 + 1..]);
  }

  lemma ThreeWords(a: bytes, b: bytes, c: bytes)
    ensures a + " " + (b + " " + c) == a + " " + b + " " + c
  {}

  // --- From messages to the parser: completeness ----------------------------------------------

  lemma ParsePrintedField(r: Request, f: Field, t: bytes)
    requires r.state.HEADERS? && ValidField(f)
    ensures ParseBytes(r, PrintField(f) + CRLF + t) == ParseBytes(r.(headers := r.headers[f.name := f.value]), t)
  {
    FindCrlfAfterLine(PrintField(f), t);
    ReadPrintedField(r, f);
    assert PrintField(f) != "";
  }

  /** Printed header lines are consumed one by one, whatever follows them. */
  lemma {:induction false} ParsePrintedFields(r: Request, fs: seq<Field>, t: bytes)
    requires r.state.HEADERS? && ValidFields(fs)
    ensures ParseBytes(r, PrintFields(fs) + t) == ParseBytes(r.(headers := Bind(r.headers, fs)), t)
    decreases |fs|
  {
    if fs == [] {
      assert PrintFields(fs) + t == t;
    } else {
      var more := PrintFields(fs[1..]) + t;
      RegroupLine(PrintField(fs[0]), PrintFields(fs[1..]), t);
      ParsePrintedField(r, fs[0], more);
      ParsePrintedFields(r.(headers := r.headers[fs[0].name := fs[0].value]), fs[1..], t);
    }
  }

  /** The blank line and the body that fits the headers finish the request. */
  lemma ParseEnd(r: Request, body: bytes, t: bytes)
    requires r.state.HEADERS? && BodyFits(r.headers, body) && (CONTENT_LENGTH !in r.headers ==> r.body == "")
    ensures var length := if CONTENT_LENGTH in r.headers then |body| else r.contentLength;
            var r1 := r.(state := FINISH, body := body, contentLength := length);
            ParseBytes(r, CRLF + body + t) == Parsed(r1, t, Finished)
  {
    var b := CRLF + body + t;
    assert NoCrlf("");
    assert "" + CRLF + (body + t) == b;
    FindCrlfAfterLine("", body + t);
    assert b[2..] == body + t;
    if CONTENT_LENGTH in r.headers {
      assert (body + t)[..|body|] == body && (body + t)[|body|..] == t;
    } else {
      assert body + t == t;
    }
  }

  /** An accepted request line is consumed, whatever follows it. */
  lemma ParseRequestLine(r: Request, line: bytes, t: bytes)
    requires r.state.REQUEST_LINE? && NoCrlf(line) && ReadRequestLine(r, line).1
    ensures ParseBytes(r, line + CRLF + t) == ParseBytes(ReadRequestLine(r, line).0.(state := HEADERS), t)
  {
    FindCrlfAfterLine(line, t);
  }

  /** A printed head is consumed, whatever follows it. */
  lemma ParsePrintedHead(m: Message, t: bytes)
    requires ValidHead(m)
    ensures ParseBytes(FRESH, PrintHead(m) + t) == ParseBytes(AfterHead(m), t)
  {
    var line, more := PrintRequestLine(m), PrintFields(m.fields) + t;
    RegroupLine(line, PrintFields(m.fields), t);
    ReadPrintedRequestLine(FRESH, m);
    ParseRequestLine(FRESH, line, more);
    ParsePrintedFields(FRESH.(verb := m.verb, path := m.path, version := m.version, state := HEADERS), m.fields, t);
  }

  /** Round trip: a printed message followed by anything gives back its values and what follows it. */
  lemma RequestRoundTrip(m: Message, t: bytes)
    requires Valid(m)
    ensures ParseBytes(FRESH, Print(m) + t) == Parsed(Meaning(m), t, Finished)
  {
    Regroup(PrintHead(m), CRLF, m.body);
    Regroup(PrintHead(m), CRLF + m.body, t);
    ParsePrintedHead(m, CRLF + m.body + t);
    ParseEnd(AfterHead(m), m.body, t);
  }

  /** In the round trip each header name is bound to its last occurrence. */
  lemma {:induction false} BindsLastOccurrence(headers: map<bytes, bytes>, fs: seq<Field>, name: bytes)
    ensures var bound := Bind(headers, fs);
            if exists i :: 0 <= i < |fs| && fs[i].name == name
            then exists i :: 0 <= i < |fs| && fs[i].name == name && name in bound && bound[name] == fs[i].value
                             && forall j :: i < j < |fs| ==> fs[j].name != name
            else (name in bound <==> name in headers) && (name in bound ==> bound[name] == headers[name])
    decreases |fs|
  {
    if fs != [] {
      var tail := fs[1..];
      BindsLastOccurrence(headers[fs[0].name := fs[0].value], tail, name);
      var bound := Bind(headers, fs);
      if i :| 0 <= i < |tail| && tail[i].name == name {
        var k :| 0 <= k < |tail| && tail[k].name == name && bound[name] == tail[k].value
                 && forall j :: k < j < |tail| ==> tail[j].name != name;
        assert fs[k + 1] == tail[k];
        assert forall j :: k + 1 < j < |fs| ==> fs[j] == tail[j - 1];
      } else {
        assert forall j :: 0 < j < |fs| ==> fs[j] == tail[j - 1];
      }
    }
  }

  // --- From the parser to messages: soundness --------------------------------------------------

  /** A pass over a header line that is neither the last nor rejected. */
  lemma HeaderPass(r: Request, b: bytes)
    requires r.state.HEADERS? && !ParseBytes(r, b).outcome.Unfinished?
    requires FindCrlf(b).Some? && FindCrlf(b).value > 0
    ensures var line := b[..FindCrlf(b).value];
            ':' in line && OnePass(r, b) == Again(ReadHeader(r, line).0, b[|line| + 2..])
  {
    var line := b[..FindCrlf(b).value];
    AcceptedHeaderHasColon(r, line);
  }

  lemma AcceptedHeaderHasColon(r: Request, line: bytes)
    ensures ReadHeader(r, line).1 <==> ':' in line
  {
    var colon := IndexOf(line, ':');
    assert colon < |line| ==> line[colon] == ':';
    assert line[..|line|] == line;
  }

  /** Bytes on which the parser leaves the HEADERS state start with printed header lines and the blank line. */
  lemma {:induction false} HeadersSplit(r: Request, b: bytes) returns (fs: seq<Field>, x: bytes)
    requires r.state.HEADERS? && !ParseBytes(r, b).outcome.Unfinished?
    ensures ValidFields(fs) && b == PrintFields(fs) + (CRLF + x)
    decreases |b|
  {
    var n := FindCrlf(b).value;
    FirstLine(b);
    if n == 0 {
      fs, x := [], b[2..];
    } else {
      var line := b[..n];
      HeaderPass(r, b);
      FieldOfLine(line);
      var tail, y := HeadersSplit(ReadHeader(r, line).0, b[n + 2..]);
      fs, x := [FieldOf(line)] + tail, y;
      assert fs[1..] == tail;
      RegroupLine(line, PrintFields(tail), CRLF + x);
    }
  }

  /** The first pass over a request line that does not have to wait and is not rejected. */
  lemma FirstPass(b: bytes)
    requires !ParseBytes(FRESH, b).outcome.Unfinished?
    ensures var crlf := FindCrlf(b);
            crlf.Some? && ReadRequestLine(FRESH, b[..crlf.value]).1
            && var r := ReadRequestLine(FRESH, b[..crlf.value]).0;
               !ParseBytes(r.(state := HEADERS), b[crlf.value + 2..]).outcome.Unfinished?
  {
    var p := OnePass(FRESH, b);
  }

  /** Unless it waits or rejects, the parser has read a printed head and the blank line. */
  lemma HeadSplit(b: bytes) returns (m: Message, x: bytes)
    requires !ParseBytes(FRESH, b).outcome.Unfinished?
    ensures ValidHead(m) && m.body == "" && b == PrintHead(m) + (CRLF + x)
    ensures ParseBytes(FRESH, b) == ParseBytes(AfterHead(m), CRLF + x)
  {
    FirstPass(b);
    FirstLine(b);
    var n := FindCrlf(b).value;
    var line := b[..n];
    RequestLineSplits(FRESH, line);
    var r := ReadRequestLine(FRESH, line).0;
    var fs;
    fs, x := HeadersSplit(r.(state := HEADERS), b[n + 2..]);
    m := Message(r.verb, r.path, r.version, fs, "");
    assert PrintRequestLine(m) == line;
    RegroupLine(line, PrintFields(fs), CRLF + x);
    ParsePrintedHead(m, CRLF + x);
  }

  /** What the blank line leads to. */
  lemma BlankLine(r: Request, x: bytes)
    requires r.state.HEADERS?
    ensures var p := ParseBytes(r, CRLF + x);
            if CONTENT_LENGTH !in r.headers then p == Parsed(r.(state := FINISH), x, Finished)
            else var length := Stoull(r.headers[CONTENT_LENGTH]);
              if length.Number? then p == ParseBytes(r.(contentLength := length.n, state := BODY), x)
              else p == Parsed(r, x, Threw)
  {
    assert NoCrlf("");
    assert "" + CRLF + x == CRLF + x;
    FindCrlfAfterLine("", x);
    assert (CRLF + x)[2..] == x;
  }

  /** After the blank line, a finished parse has read a body that fits the headers. */
  lemma BodySplit(r: Request, x: bytes) returns (body: bytes)
    requires r.state.HEADERS? && ParseBytes(r, CRLF + x).outcome.Finished?
    ensures BodyFits(r.headers, body) && body <= x
  {
    BlankLine(r, x);
    body := if CONTENT_LENGTH in r.headers then x[..Stoull(r.headers[CONTENT_LENGTH]).n] else "";
  }

  /** A finished parse has read a message of the grammar and nothing more. */
  lemma Soundness(b: bytes) returns (m: Message)
    requires ParseBytes(FRESH, b).outcome.Finished?
    ensures Valid(m) && b == Print(m) + ParseBytes(FRESH, b).rest && ParseBytes(FRESH, b).request == Meaning(m)
  {
    var head, x := HeadSplit(b);
    var body := BodySplit(AfterHead(head), x);
    m := head.(body := body);
    BodyAppended(head, body, x);
    RequestRoundTrip(m, x[|body|..]);
  }

  lemma BodyAppended(head: Message, body: bytes, x: bytes)
    requires body <= x
    ensures PrintHead(head) + (CRLF + x) == Print(head.(body := body)) + x[|body|..]
  {
    assert x == body + x[|body|..];
    assert PrintHead(head.(body := body)) == PrintHead(head);
  }

  // --- The language theorems --------------------------------------------------------------------

  ghost predicate StartsWithMessage(b: bytes, m: Message, t: bytes) {
    Valid(m) && b == Print(m) + t
  }

  /** `Parse` finishes on `b` exactly when some prefix of `b` is in the grammar. */
  lemma AcceptsExactlyTheGrammar(b: bytes)
    ensures ParseBytes(FRESH, b).outcome.Finished? <==> exists m, t :: StartsWithMessage(b, m, t)
  {
    if ParseBytes(FRESH, b).outcome.Finished? {
      var m := Soundness(b);
      assert StartsWithMessage(b, m, ParseBytes(FRESH, b).rest);
    }
    if m, t :| StartsWithMessage(b, m, t) {
      RequestRoundTrip(m, t);
    }
  }

  /** The start of a message has an unreadable Content-Length. */
  ghost predicate StartsWithBadLength(b: bytes, m: Message, t: bytes) {
    && ValidHead(m)
    && CONTENT_LENGTH in Bind(map[], m.fields)
    && !Stoull(Bind(map[], m.fields)[CONTENT_LENGTH]).Number?
    && b == PrintHead(m) + (CRLF + t)
  }

  /** `Parse` throws on `b` exactly when a complete head announces a length that is no number. */
  lemma ThrowsExactlyOnBadLength(b: bytes)
    ensures ParseBytes(FRESH, b).outcome.Threw? <==> exists m, t :: StartsWithBadLength(b, m, t)
  {
    if ParseBytes(FRESH, b).outcome.Threw? {
      var m, x := ThrownHead(b);
    }
    if m, t :| StartsWithBadLength(b, m, t) {
      BadLengthThrows(m, t);
    }
  }

  lemma ThrownHead(b: bytes) returns (m: Message, x: bytes)
    requires ParseBytes(FRESH, b).outcome.Threw?
    ensures StartsWithBadLength(b, m, x)
  {
    m, x := HeadSplit(b);
    BlankLine(AfterHead(m), x);
  }

  lemma BadLengthThrows(m: Message, t: bytes)
    requires ValidHead(m)
    requires var headers := Bind(map[], m.fields);
             CONTENT_LENGTH in headers && !Stoull(headers[CONTENT_LENGTH]).Number?
    ensures ParseBytes(FRESH, PrintHead(m) + (CRLF + t)).outcome.Threw?
  {
    ParsePrintedHead(m, CRLF + t);
    BlankLine(AfterHead(m), t);
  }

  /** Header sections read in one way only. */
  lemma {:induction false} FieldsUnambiguous(fs1: seq<Field>, x1: bytes, fs2: seq<Field>, x2: bytes)
    requires ValidFields(fs1) && ValidFields(fs2)
    requires PrintFields(fs1) + (CRLF + x1) == PrintFields(fs2) + (CRLF + x2)
    ensures fs1 == fs2 && x1 == x2
    decreases |fs1| + |fs2|
  {
    var line1, more1 := FirstHeaderLine(fs1, x1);
    var line2, more2 := FirstHeaderLine(fs2, x2);
    FindCrlfAfterLine(line1, more1);
    FindCrlfAfterLine(line2, more2);
    assert line1 == line2 && more1 == more2;
    if fs1 != [] && fs2 != [] {
      FieldOfPrinted(fs1[0]);
      FieldOfPrinted(fs2[0]);
      FieldsUnambiguous(fs1[1..], x1, fs2[1..], x2);
      assert fs1 == [fs1[0]] + fs1[1..] && fs2 == [fs2[0]] + fs2[1..];
    }
  }

  /** The first line of a header section is empty exactly when there are no fields. */
  lemma FirstHeaderLine(fs: seq<Field>, x: bytes) returns (line: bytes, more: bytes)
    requires ValidFields(fs)
    ensures NoCrlf(line) && PrintFields(fs) + (CRLF + x) == line + CRLF + more
    ensures if fs == [] then line == "" && more == x
            else line == PrintField(fs[0]) != "" && more == PrintFields(fs[1..]) + (CRLF + x)
  {
    if fs == [] {
      line, more := "", x;
      assert PrintFields(fs) + (CRLF + x) == line + CRLF + more;
    } else {
      line, more := PrintField(fs[0]), PrintFields(fs[1..]) + (CRLF + x);
      RegroupLine(line, PrintFields(fs[1..]), CRLF + x);
    }
  }

  /** Unique framing: the same bytes never start with two messages, not even with one inside the other. */
  lemma UniqueFraming(m1: Message, t1: bytes, m2: Message, t2: bytes)
    requires Valid(m1) && Valid(m2)
    requires Print(m1) + t1 == Print(m2) + t2
    ensures m1 == m2 && t1 == t2
  {
    SameMeaning(m1, t1, m2, t2);
    Regroup(PrintHead(m1) + CRLF, m1.body, t1);
    Regroup(PrintHead(m2) + CRLF, m2.body, t2);
    SameFields(m1, m1.body + t1, m2, m2.body + t2);
  }

  lemma SameMeaning(m1: Message, t1: bytes, m2: Message, t2: bytes)
    requires Valid(m1) && Valid(m2)
    requires Print(m1) + t1 == Print(m2) + t2
    ensures Meaning(m1) == Meaning(m2) && t1 == t2
  {
    RequestRoundTrip(m1, t1);
    RequestRoundTrip(m2, t2);
  }

  lemma SameFields(m1: Message, x1: bytes, m2: Message, x2: bytes)
    requires ValidHead(m1) && ValidHead(m2)
    requires PrintHead(m1) + CRLF + x1 == PrintHead(m2) + CRLF + x2
    ensures m1.fields == m2.fields
  {
    var line1, more1 := PrintRequestLine(m1), PrintFields(m1.fields) + (CRLF + x1);
    var line2, more2 := PrintRequestLine(m2), PrintFields(m2.fields) + (CRLF + x2);
    Regroup(PrintHead(m1), CRLF, x1);
    Regroup(PrintHead(m2), CRLF, x2);
    RegroupLine(line1, PrintFields(m1.fields), CRLF + x1);
    RegroupLine(line2, PrintFields(m2.fields), CRLF + x2);
    FindCrlfAfterLine(line1, more1);
    FindCrlfAfterLine(line2, more2);
    FieldsUnambiguous(m1.fields, x1, m2.fields, x2);
  }
}
