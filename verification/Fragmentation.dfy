/** How the bytes are split across reads does not matter, and what it costs in loop passes. */
module Fragmentation {
  import opened Bytes
  import opened RequestParser

  /** A loop pass that does not wait for data does not look at the bytes appended after it;
      one that waits is repeated unchanged, even when it has already set the method. */
  lemma PassExtends(r: Request, b: bytes, c: bytes)
    ensures match OnePass(r, b)
            case Again(r1, b1) => OnePass(r, b + c) == Again(r1, b1 + c)
            case Halt(r1, b1, Unfinished) => b1 == b && OnePass(r1, b + c) == OnePass(r, b + c)
            case Halt(r1, b1, outcome) => OnePass(r, b + c) == Halt(r1, b1 + c, outcome)
  {
    if r.state.REQUEST_LINE? || r.state.HEADERS? {
      if FindCrlf(b).Some? {
        FirstLineStays(b, c);
      }
    } else if r.state.BODY? && |b| >= r.contentLength {
      PrefixStays(b, c, r.contentLength);
    }
    assert r.state.FINISH? ==> OnePass(r, b) == Halt(r, b, Finished);
  }

  lemma FirstLineStays(b: bytes, c: bytes)
    requires FindCrlf(b).Some?
    ensures FindCrlf(b + c) == FindCrlf(b)
    ensures var n := FindCrlf(b).value;
            (b + c)[..n] == b[..n] && (b + c)[n + 2..] == b[n + 2..] + c && (b + c)[2..] == b[2..] + c
  {
    FindCrlfAppend(b, c);
    PrefixStays(b, c, FindCrlf(b).value);
    PrefixStays(b, c, FindCrlf(b).value + 2);
    PrefixStays(b, c, 2);
  }

  lemma PrefixStays(b: bytes, c: bytes, n: nat)
    requires n <= |b|
    ensures (b + c)[..n] == b[..n] && (b + c)[n..] == b[n..] + c
  {}

  /** Parsing `b` and later the leftover followed by `c` ends exactly as parsing `b + c` at once. */
  lemma {:induction false} SplitInvariance(r: Request, b: bytes, c: bytes)
    ensures var first := ParseBytes(r, b);
            var whole := ParseBytes(r, b + c);
            if first.outcome.Threw? then whole == first.(rest := first.rest + c)
            else whole == ParseBytes(first.request, first.rest + c)
    decreases |b|
  {
    PassExtends(r, b, c);
    match OnePass(r, b)
    case Again(r1, b1) => SplitInvariance(r1, b1, c);
    case Halt(r1, b1, outcome) =>
      if outcome.Finished? {
        assert r1.state.FINISH?;
      }
  }

  /** What happens when `chunk` arrives. An exception is final: `Parse` is not called again. */
  function Receive(p: Parsed, chunk: bytes): Parsed {
    if p.outcome.Threw? then p.(rest := p.rest + chunk)
    else ParseBytes(p.request, p.rest + chunk)
  }

  lemma ReceiveSplit(r: Request, b: bytes, c: bytes)
    ensures Receive(ParseBytes(r, b), c) == ParseBytes(r, b + c)
  {
    SplitInvariance(r, b, c);
  }

  function ReceiveAll(p: Parsed, chunks: seq<bytes>): Parsed
    decreases |chunks|
  {
    if chunks == [] then p else ReceiveAll(Receive(p, chunks[0]), chunks[1..])
  }

  lemma ReceiveAllStep(p: Parsed, chunks: seq<bytes>)
    requires chunks != []
    ensures ReceiveAll(p, chunks) == ReceiveAll(Receive(p, chunks[0]), chunks[1..])
  {}

  /** Every split of a stream into reads leaves the same fields, leftover bytes and outcome. */
  lemma {:induction false} FragmentationIndependence(r: Request, b: bytes, chunks: seq<bytes>)
    ensures ReceiveAll(ParseBytes(r, b), chunks) == ParseBytes(r, b + Concat(chunks))
    decreases |chunks|
  {
    if chunks == [] {
      assert b + Concat(chunks) == b;
    } else {
      assert b + Concat(chunks) == (b + chunks[0]) + Concat(chunks[1..]);
      ReceiveSplit(r, b, chunks[0]);
      FragmentationIndependence(r, b + chunks[0], chunks[1..]);
      ReceiveAllStep(ParseBytes(r, b), chunks);
    }
  }

  /** Two splits of the same bytes cannot be told apart. */
  lemma AnyTwoSplitsAgree(chunks1: seq<bytes>, chunks2: seq<bytes>)
    requires Concat(chunks1) == Concat(chunks2)
    ensures ReceiveAll(ParseBytes(FRESH, ""), chunks1) == ReceiveAll(ParseBytes(FRESH, ""), chunks2)
  {
    FragmentationIndependence(FRESH, "", chunks1);
    FragmentationIndependence(FRESH, "", chunks2);
  }

  lemma PassRestIsSuffix(r: Request, b: bytes)
    ensures IsSuffix(OnePass(r, b).rest, b)
  {}

  /** The unread bytes are a suffix of the input: the parser consumes from the front only. */
  lemma {:induction false} RestIsSuffix(r: Request, b: bytes)
    ensures IsSuffix(ParseBytes(r, b).rest, b)
    decreases |b|
  {
    PassRestIsSuffix(r, b);
    match OnePass(r, b)
    case Again(r1, b1) =>
      RestIsSuffix(r1, b1);
      SuffixTrans(ParseBytes(r1, b1).rest, b1, b);
    case Halt(_, _, _) =>
  }

  /** All passes of one call but the last consume at least two bytes. */
  lemma {:induction false} PassesOfOneCall(r: Request, b: bytes)
    ensures 2 * (Passes(r, b) - 1) + |ParseBytes(r, b).rest| <= |b|
    decreases |b|
  {
    match OnePass(r, b)
    case Again(r1, b1) => PassesOfOneCall(r1, b1);
    case Halt(_, _, _) =>
  }

  /** Loop passes over all the calls made while `chunks` arrive. */
  function TotalPasses(p: Parsed, chunks: seq<bytes>): nat
    decreases |chunks|
  {
    if chunks == [] then 0
    else
      (if p.outcome.Threw? then 0 else Passes(p.request, p.rest + chunks[0]))
      + TotalPasses(Receive(p, chunks[0]), chunks[1..])
  }

  /** Amortised bound: k calls make at most k + consumed/2 passes in total, however the input is cut. */
  lemma {:induction false} AmortisedPasses(p: Parsed, chunks: seq<bytes>)
    ensures var consumed := |p.rest| + |Concat(chunks)| - |ReceiveAll(p, chunks).rest|;
            0 <= consumed && TotalPasses(p, chunks) <= |chunks| + consumed / 2
    decreases |chunks|
  {
    if chunks != [] {
      PassesOfOneCall(p.request, p.rest + chunks[0]);
      AmortisedPasses(Receive(p, chunks[0]), chunks[1..]);
    }
  }
}
