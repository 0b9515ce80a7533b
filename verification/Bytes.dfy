/** Byte strings, and the searches the server performs on them. */
module Bytes {

  // The C++ code only ever compares bytes with ASCII constants, so a byte is a `char` here.
  // Every statement holds for all strings, hence for all strings of octets.
  type bytes = string

  datatype Option<+T> = None | Some(value: T)

  const CRLF: bytes := "\r\n"

  predicate CrlfAt(s: bytes, i: nat) {
    i + 1 < |s| && s[i] == '\r' && s[i + 1] == '\n'
  }

  /** No CR LF pair lies inside `s`. A lone CR or LF is allowed. */
  ghost predicate NoCrlf(s: bytes) {
    forall i: nat :: !CrlfAt(s, i)
  }

  /** Position of the first CR LF pair. */
  function FindCrlf(s: bytes): (r: Option<nat>)
    ensures r.Some? ==> CrlfAt(s, r.value) && forall j: nat :: j < r.value ==> !CrlfAt(s, j)
    ensures r.None? ==> NoCrlf(s)
  {
    FindCrlfFrom(s, 0)
  }

  function FindCrlfFrom(s: bytes, i: nat): (r: Option<nat>)
    requires forall j: nat :: j < i ==> !CrlfAt(s, j)
    ensures r.Some? ==> CrlfAt(s, r.value) && forall j: nat :: j < r.value ==> !CrlfAt(s, j)
    ensures r.None? ==> NoCrlf(s)
    decreases |s| - i
  {
    if i + 1 >= |s| then None
    else if CrlfAt(s, i) then Some(i)
    else FindCrlfFrom(s, i + 1)
  }

  /** `std::find` over a range: the first position of `c`, or the end of the range. */
  function IndexOf(s: bytes, c: char): (i: nat)
    ensures i <= |s| && c !in s[..i]
    ensures i < |s| ==> s[i] == c
  {
    if s == "" || s[0] == c then 0
    else
      var i := IndexOf(s[1..], c);
      assert s[..i + 1] == [s[0]] + s[1..][..i];
      i + 1
  }

  /** The first occurrence is the only position with nothing before it. */
  lemma IndexOfIs(s: bytes, c: char, i: nat)
    requires i <= |s| && c !in s[..i]
    requires i == |s| || s[i] == c
    ensures IndexOf(s, c) == i
  {
    var k := IndexOf(s, c);
    assert forall j :: 0 <= j < i ==> s[..i][j] == s[j];
    assert forall j :: 0 <= j < k ==> s[..k][j] == s[j];
  }

  lemma IndexOfPresent(s: bytes, c: char)
    requires c in s
    ensures IndexOf(s, c) < |s|
  {
    assert s[..|s|] == s;
  }

  lemma IndexOfAppend(s: bytes, t: bytes, c: char)
    requires IndexOf(s, c) < |s|
    ensures IndexOf(s + t, c) == IndexOf(s, c) && (s + t)[..IndexOf(s, c)] == s[..IndexOf(s, c)]
  {
    assert (s + t)[..IndexOf(s, c)] == s[..IndexOf(s, c)];
    IndexOfIs(s + t, c, IndexOf(s, c));
  }

  /** The first occurrence splits the string in three. */
  lemma SplitAtFirst(s: bytes, c: char)
    requires IndexOf(s, c) < |s|
    ensures var i := IndexOf(s, c);
            c !in s[..i] && s == s[..i] + [c] + s[i + 1..]
  {}

  /** Appending bytes never moves a CR LF already found. */
  lemma FindCrlfAppend(s: bytes, t: bytes)
    requires FindCrlf(s).Some?
    ensures FindCrlf(s + t) == FindCrlf(s)
  {
    var n := FindCrlf(s).value;
    assert forall j: nat :: j < n ==> CrlfAt(s + t, j) == CrlfAt(s, j);
    assert CrlfAt(s + t, n);
  }

  /** A line without CR LF that is followed by CR LF ends exactly there, even if it ends in CR. */
  lemma FindCrlfAfterLine(line: bytes, t: bytes)
    requires NoCrlf(line)
    ensures FindCrlf(line + CRLF + t) == Some(|line|)
    ensures (line + CRLF + t)[..|line|] == line
    ensures (line + CRLF + t)[|line| + 2..] == t
  {
    var s := line + CRLF + t;
    assert CrlfAt(s, |line|);
    forall j: nat | j < |line| ensures !CrlfAt(s, j) {
      assert !CrlfAt(line, j);
    }
  }

  /** What precedes the first CR LF has no CR LF, and the three parts make up the whole. */
  lemma FirstLine(s: bytes)
    requires FindCrlf(s).Some?
    ensures var n := FindCrlf(s).value;
            n + 2 <= |s| && NoCrlf(s[..n]) && s == s[..n] + CRLF + s[n + 2..]
  {
    var n := FindCrlf(s).value;
    forall i: nat ensures !CrlfAt(s[..n], i) {
      if i < n { assert !CrlfAt(s, i); }
    }
  }

  lemma Regroup(a: bytes, b: bytes, c: bytes)
    ensures a + b + c == a + (b + c)
  {}

  /** The same bytes seen as a first line and the rest. */
  lemma RegroupLine(line: bytes, b: bytes, c: bytes)
    ensures line + CRLF + b + c == line + CRLF + (b + c)
  {}

  predicate IsSuffix(s: bytes, of: bytes) {
    |s| <= |of| && s == of[|of| - |s|..]
  }

  lemma SuffixTrans(a: bytes, b: bytes, c: bytes)
    requires IsSuffix(a, b) && IsSuffix(b, c)
    ensures IsSuffix(a, c)
  {}

  lemma NotInConcat(c: char, a: bytes, b: bytes)
    requires c !in a && c !in b
    ensures c !in a + b
  {}

  lemma NoReturnNoCrlf(s: bytes)
    requires '\r' !in s
    ensures NoCrlf(s)
  {}

  function Concat(parts: seq<bytes>): bytes {
    if parts == [] then "" else parts[0] + Concat(parts[1..])
  }

  lemma {:induction false} ConcatSnoc(parts: seq<bytes>, last: bytes)
    ensures Concat(parts + [last]) == Concat(parts) + last
  {
    if parts == [] {
      assert Concat([last]) == last + Concat([]);
    } else {
      assert (parts + [last])[1..] == parts[1..] + [last];
      ConcatSnoc(parts[1..], last);
    }
  }
}
