/** A stream of outputs sent one after the other: what has left at any moment, and what a reader
    makes of it. */
module Streams {
  import opened Bytes

  // --- What has left, byte by byte -------------------------------------------------------------

  predicate Within(outs: seq<bytes>, sent: nat) {
    outs != [] ==> sent <= |outs[|outs| - 1]|
  }

  /** Nothing is missing of the last output. */
  predicate Whole(outs: seq<bytes>, sent: nat) {
    outs != [] ==> sent == |outs[|outs| - 1]|
  }

  /** All outputs but the last, and `sent` bytes of that. */
  function Leaving(outs: seq<bytes>, sent: nat): bytes
    requires Within(outs, sent)
  {
    if outs == [] then "" else Concat(outs[..|outs| - 1]) + outs[|outs| - 1][..sent]
  }

  lemma LeavingIsPrefix(outs: seq<bytes>, sent: nat)
    requires Within(outs, sent)
    ensures Leaving(outs, sent) <= Concat(outs)
    ensures Leaving(outs, sent) == Concat(outs) <==> Whole(outs, sent)
  {
    if outs != [] {
      var before, last := Concat(outs[..|outs| - 1]), outs[|outs| - 1];
      ConcatLast(outs);
      assert last == last[..sent] + last[sent..];
      Regroup(before, last[..sent], last[sent..]);
    }
  }

  lemma ConcatLast(outs: seq<bytes>)
    requires outs != []
    ensures Concat(outs) == Concat(outs[..|outs| - 1]) + outs[|outs| - 1]
  {
    assert outs == outs[..|outs| - 1] + [outs[|outs| - 1]];
    ConcatSnoc(outs[..|outs| - 1], outs[|outs| - 1]);
  }

  // --- Readers of a stream ---------------------------------------------------------------------

  /** The reader takes each part for the value beside it, whatever follows the part. */
  ghost predicate AllReadAs<T>(read: bytes -> seq<T>, parts: seq<bytes>, values: seq<T>)
    decreases |parts|
  {
    |parts| == |values|
    && (parts != [] ==>
          && (forall more: bytes :: read(parts[0] + more) == [values[0]] + read(more))
          && AllReadAs(read, parts[1..], values[1..]))
  }

  /** Then it reads the values, one after the other, and goes on with what follows the parts. */
  lemma {:induction false} ReadConcat<T>(read: bytes -> seq<T>, parts: seq<bytes>, values: seq<T>, more: bytes)
    requires AllReadAs(read, parts, values)
    ensures read(Concat(parts) + more) == values + read(more)
    decreases |parts|
  {
    if parts == [] {
      assert Concat(parts) + more == more;
    } else {
      Regroup(parts[0], Concat(parts[1..]), more);
      ReadConcat(read, parts[1..], values[1..], more);
    }
  }

  /** A reader that gets nothing out of a part of an output gets the values of the complete ones. */
  lemma ReadLeaving<T>(read: bytes -> seq<T>, outs: seq<bytes>, values: seq<T>, sent: nat)
    requires AllReadAs(read, outs, values) && Within(outs, sent) && read("") == []
    requires !Whole(outs, sent) ==> read(outs[|outs| - 1][..sent]) == []
    ensures |outs| == |values|
    ensures read(Leaving(outs, sent)) == if Whole(outs, sent) then values else values[..|values| - 1]
  {
    if Whole(outs, sent) {
      LeavingIsPrefix(outs, sent);
      ReadConcat(read, outs, values, "");
      assert Concat(outs) + "" == Concat(outs) && values + [] == values;
    } else {
      AllButLastReadAs(read, outs, values);
      ReadConcat(read, outs[..|outs| - 1], values[..|values| - 1], outs[|outs| - 1][..sent]);
      assert values[..|values| - 1] + [] == values[..|values| - 1];
    }
  }

  lemma {:induction false} AllButLastReadAs<T>(read: bytes -> seq<T>, parts: seq<bytes>, values: seq<T>)
    requires AllReadAs(read, parts, values) && parts != []
    ensures |parts| == |values| && AllReadAs(read, parts[..|parts| - 1], values[..|values| - 1])
    decreases |parts|
  {
    if |parts| > 1 {
      AllButLastReadAs(read, parts[1..], values[1..]);
      assert parts[..|parts| - 1][1..] == parts[1..][..|parts| - 2];
      assert values[..|values| - 1][1..] == values[1..][..|values| - 2];
    }
  }
}
