/** What a `Parse` call that returned false can still turn into. */
module Viability {
  import opened Bytes
  import opened Decimal
  import opened RequestParser
  import opened Fragmentation
  import opened Grammar

  /** Some continuation of the input finishes the request. */
  ghost predicate CanFinish(r: Request, b: bytes) {
    exists c: bytes :: ParseBytes(r, b + c).outcome.Finished?
  }

  /** A complete line is at the front of the buffer and the parser left it there: it is malformed. */
  predicate Rejected(r: Request, b: bytes) {
    (r.state.REQUEST_LINE? || r.state.HEADERS?) && FindCrlf(b).Some?
  }

  /** Some method token can still be completed, or has been. */
  ghost predicate StartsRequestLine(b: bytes) {
    var space := IndexOf(b, ' ');
    if space < |b| then !MethodOf(b[..space]).INVALID?
    else exists m: HttpMethod :: !m.INVALID? && b <= Token(m)
  }

  /** The test on the parser's state that decides whether waiting can help. */
  ghost predicate Viable(r: Request, b: bytes) {
    !Rejected(r, b) && (r.state.REQUEST_LINE? ==> StartsRequestLine(b))
  }

  /** After a call that returned false, a further call on the same bytes changes nothing. */
  lemma {:induction false} Settled(r: Request, b: bytes)
    requires ParseBytes(r, b).outcome.Unfinished?
    ensures var p := ParseBytes(r, b);
            !p.request.state.FINISH? && OnePass(p.request, p.rest) == Halt(p.request, p.rest, Unfinished)
    decreases |b|
  {
    match OnePass(r, b)
    case Again(r1, b1) => Settled(r1, b1);
    case Halt(r1, b1, _) =>
      PassExtends(r, b, "");
      assert b + "" == b;
  }

  /** Rejection is final: whatever arrives in whatever pieces, every later call returns false,
      changes no field and consumes nothing. */
  lemma {:induction false} RejectionIsFinal(r: Request, b: bytes, chunks: seq<bytes>)
    requires var p := ParseBytes(r, b); p.outcome.Unfinished? && Rejected(p.request, p.rest)
    ensures var p := ParseBytes(r, b);
            ReceiveAll(p, chunks) == p.(rest := p.rest + Concat(chunks))
  {
    var p := ParseBytes(r, b);
    Settled(r, b);
    RejectedStays(p.request, p.rest, Concat(chunks));
    assert p.rest + "" == p.rest;
    RejectedStays(p.request, p.rest, "");
    FragmentationIndependence(p.request, p.rest, chunks);
  }

  lemma RejectedStays(r: Request, b: bytes, c: bytes)
    requires Rejected(r, b) && OnePass(r, b) == Halt(r, b, Unfinished)
    ensures ParseBytes(r, b + c) == Parsed(r, b + c, Unfinished)
  {
    FindCrlfAppend(b, c);
    assert (b + c)[..FindCrlf(b).value] == b[..FindCrlf(b).value];
  }

  /** Header lines that finish any request whose headers are not complete. */
  const CLOSING: bytes := ":" + CRLF + PrintField(NO_BODY) + CRLF + CRLF

  const NO_BODY := Field(CONTENT_LENGTH, 0, ToString(0))

  lemma NoBodyValid()
    ensures ValidField(NO_BODY) && Stoull(NO_BODY.value) == Number(0)
  {
    StoullToString(0);
    assert ToString(0) == "0";
    assert PrintField(NO_BODY) == CONTENT_LENGTH + ":0";
    NotInConcat('\r', CONTENT_LENGTH, ":0");
    NoReturnNoCrlf(PrintField(NO_BODY));
  }

  /** From HEADERS with an incomplete line, the request can always be finished, even if an
      unreadable Content-Length has already been seen. */
  lemma ClosingFinishes(r: Request, b: bytes)
    requires r.state.HEADERS? && NoCrlf(b)
    ensures ParseBytes(r, b + CLOSING).outcome.Finished?
  {
    var line := b + ":";
    forall i: nat ensures !CrlfAt(line, i) { assert !CrlfAt(b, i); }
    assert line[|b|] == ':';
    FieldOfLine(line);
    var f := FieldOf(line);
    var more := PrintField(NO_BODY) + CRLF + (CRLF + "" + "");
    assert CLOSING == ":" + CRLF + more;
    RegroupColon(b, more);
    ParsePrintedField(r, f, more);
    NoBodyFinishes(r.(headers := r.headers[f.name := f.value]));
  }

  lemma RegroupColon(b: bytes, c: bytes)
    ensures b + (":" + CRLF + c) == b + ":" + CRLF + c
  {}

  lemma NoBodyFinishes(r: Request)
    requires r.state.HEADERS?
    ensures ParseBytes(r, PrintField(NO_BODY) + CRLF + (CRLF + "" + "")).outcome.Finished?
  {
    NoBodyValid();
    ParsePrintedField(r, NO_BODY, CRLF + "" + "");
    ParseEnd(r.(headers := r.headers[CONTENT_LENGTH := NO_BODY.value]), "", "");
  }

  /** A request line that can be completed to an accepted one leads to a finished request. */
  lemma CompletedLineFinishes(r: Request, b: bytes, extra: bytes)
    requires r.state.REQUEST_LINE? && NoCrlf(b + extra) && ReadRequestLine(r, b + extra).1
    ensures CanFinish(r, b)
  {
    assert "" + CLOSING == CLOSING;
    ClosingFinishes(ReadRequestLine(r, b + extra).0.(state := HEADERS), "");
    CompletedBy(r, b, extra, CLOSING);
  }

  lemma CompletedBy(r: Request, b: bytes, extra: bytes, c: bytes)
    requires r.state.REQUEST_LINE? && NoCrlf(b + extra) && ReadRequestLine(r, b + extra).1
    requires ParseBytes(ReadRequestLine(r, b + extra).0.(state := HEADERS), c).outcome.Finished?
    ensures CanFinish(r, b)
  {
    ParseRequestLine(r, b + extra, c);
    RegroupMiddle(b, extra, c);
    assert ParseBytes(r, b + (extra + CRLF + c)).outcome.Finished?;
  }

  lemma RegroupMiddle(a: bytes, b: bytes, c: bytes)
    ensures a + b + CRLF + c == a + (b + CRLF + c)
  {}

  lemma MethodReadCanFinish(r: Request, b: bytes)
    requires r.state.REQUEST_LINE? && NoCrlf(b)
    requires var space := IndexOf(b, ' '); space < |b| && !MethodOf(b[..space]).INVALID?
    ensures CanFinish(r, b)
  {
    OneMoreSpaceNoCrlf(b);
    OneMoreSpaceAccepted(r, b);
    CompletedLineFinishes(r, b, " ");
  }

  lemma OneMoreSpaceNoCrlf(b: bytes)
    requires NoCrlf(b)
    ensures NoCrlf(b + " ")
  {
    forall i: nat ensures !CrlfAt(b + " ", i) { assert !CrlfAt(b, i); }
  }

  lemma OneMoreSpaceAccepted(r: Request, b: bytes)
    requires var space := IndexOf(b, ' '); space < |b| && !MethodOf(b[..space]).INVALID?
    ensures ReadRequestLine(r, b + " ").1
  {
    OneMoreSpace(b);
  }

  lemma OneMoreSpace(b: bytes)
    requires IndexOf(b, ' ') < |b|
    ensures var line, space := b + " ", IndexOf(b, ' ');
            IndexOf(line, ' ') == space && line[..space] == b[..space]
            && IndexOf(line[space + 1..], ' ') < |line[space + 1..]|
  {
    IndexOfAppend(b, " ", ' ');
    var target := (b + " ")[IndexOf(b, ' ') + 1..];
    assert target[|target| - 1] == ' ';
    IndexOfPresent(target, ' ');
  }

  lemma MethodStartedCanFinish(r: Request, b: bytes, m: HttpMethod)
    requires r.state.REQUEST_LINE? && !m.INVALID? && b <= Token(m)
    ensures CanFinish(r, b)
  {
    var extra := Token(m)[|b|..] + "  ";
    var msg := Message(m, "", "", [], "");
    assert b + extra == PrintRequestLine(msg);
    MethodOfToken(m);
    assert b + extra == Token(m) + "  ";
    NotInConcat('\r', Token(m), "  ");
    NoReturnNoCrlf(b + extra);
    ReadPrintedRequestLine(r, msg);
    CompletedLineFinishes(r, b, extra);
  }

  lemma HopelessLineStays(r: Request, b: bytes, c: bytes)
    requires r.state.REQUEST_LINE? && NoCrlf(b) && !StartsRequestLine(b)
    ensures ParseBytes(r, b + c).outcome.Unfinished? && ParseBytes(r, b + c).rest == b + c
  {
    var crlf := FindCrlf(b + c);
    if crlf.Some? {
      var n := crlf.value;
      assert forall i: nat :: i + 1 < |b| ==> CrlfAt(b + c, i) == CrlfAt(b, i);
      var line := (b + c)[..n];
      var space, k := IndexOf(b, ' '), IndexOf(line, ' ');
      if space < |b| {
        assert n == |b| - 1 ==> b[n] == '\r';
        assert line[..space] == b[..space];
        IndexOfIs(line, ' ', space);
      } else if k < n {
        assert b == b[..space];
        assert forall i :: 0 <= i < |b| && i < n ==> line[i] in b;
        assert b <= line[..k];
        if !MethodOf(line[..k]).INVALID? {
          TokenOfMethod(line[..k]);
        }
      }
      assert !ReadRequestLine(r, line).1;
    }
  }

  /** Waiting, exactly: after a call that returned false, some continuation finishes the request
      if and only if no complete malformed line is waiting and an incomplete request line
      begins, or can be completed to, a method token. In particular from HEADERS without a
      CR LF, and from BODY, there always is one. */
  lemma WaitingHelpsExactly(r: Request, b: bytes)
    requires ParseBytes(r, b).outcome.Unfinished?
    ensures var p := ParseBytes(r, b);
            CanFinish(r, b) <==> Viable(p.request, p.rest)
  {
    var p := ParseBytes(r, b);
    forall c: bytes ensures ParseBytes(r, b + c) == ParseBytes(p.request, p.rest + c) {
      SplitInvariance(r, b, c);
    }
    assert CanFinish(r, b) <==> CanFinish(p.request, p.rest);
    Settled(r, b);
    SettledViability(p.request, p.rest);
  }

  lemma SettledViability(r: Request, b: bytes)
    requires !r.state.FINISH? && OnePass(r, b) == Halt(r, b, Unfinished)
    ensures CanFinish(r, b) <==> Viable(r, b)
  {
    if Rejected(r, b) {
      forall c: bytes ensures ParseBytes(r, b + c).outcome.Unfinished? {
        RejectedStays(r, b, c);
      }
    } else if r.state.REQUEST_LINE? {
      if StartsRequestLine(b) {
        if IndexOf(b, ' ') < |b| {
          MethodReadCanFinish(r, b);
        } else {
          var m: HttpMethod :| !m.INVALID? && b <= Token(m);
          MethodStartedCanFinish(r, b, m);
        }
      } else {
        forall c: bytes ensures ParseBytes(r, b + c).outcome.Unfinished? {
          HopelessLineStays(r, b, c);
        }
      }
    } else if r.state.HEADERS? {
      ClosingFinishes(r, b);
    } else {
      assert |b + Spaces(r.contentLength - |b|)| == r.contentLength;
      assert ParseBytes(r, b + Spaces(r.contentLength - |b|)).outcome.Finished?;
    }
  }

  // --- Input that can no longer become a request -----------------------------------------------------

  /** Parsed from scratch, these bytes leave a complete malformed line at the front, or the beginning
      of a request line that starts with no method. */
  ghost predicate Hopeless(b: bytes) {
    var p := ParseBytes(FRESH, b);
    p.outcome.Unfinished? && !Viable(p.request, p.rest)
  }

  /** Hopeless is what the parser waits on although no continuation can finish it. */
  lemma HopelessExactly(b: bytes)
    ensures Hopeless(b) <==> ParseBytes(FRESH, b).outcome.Unfinished? && !CanFinish(FRESH, b)
  {
    if ParseBytes(FRESH, b).outcome.Unfinished? {
      WaitingHelpsExactly(FRESH, b);
    }
  }

  lemma SettledHopelessStays(r: Request, b: bytes, c: bytes)
    requires !r.state.FINISH? && OnePass(r, b) == Halt(r, b, Unfinished) && !Viable(r, b)
    ensures ParseBytes(r, b + c).outcome.Unfinished? && ParseBytes(r, b + c).rest == b + c
  {
    if Rejected(r, b) {
      RejectedStays(r, b, c);
    } else {
      HopelessLineStays(r, b, c);
    }
  }

  /** It stays hopeless, the parser goes on waiting, and it consumes nothing more. */
  lemma HopelessStays(b: bytes, c: bytes)
    requires Hopeless(b)
    ensures Hopeless(b + c) && ParseBytes(FRESH, b + c).rest == ParseBytes(FRESH, b).rest + c
  {
    var p := ParseBytes(FRESH, b);
    Settled(FRESH, b);
    SplitInvariance(FRESH, b, c);
    SettledHopelessStays(p.request, p.rest, c);
    HopelessExactly(b);
    forall d: bytes ensures !ParseBytes(FRESH, b + c + d).outcome.Finished? {
      Regroup(b, c, d);
    }
    HopelessExactly(b + c);
  }
}
