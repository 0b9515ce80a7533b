/** `Session::_extractParam`: looking a field up in a form-encoded body. */
module FormLookup {
  import opened Bytes

  predicate OccursAt(s: bytes, text: bytes, p: nat) {
    p + |text| <= |s| && forall i :: 0 <= i < |text| ==> s[p + i] == text[i]
  }

  /** `std::string::find`: the first occurrence at or after `from`. */
  function FindText(s: bytes, text: bytes, from: nat): (r: Option<nat>)
    ensures r.Some? ==> from <= r.value && OccursAt(s, text, r.value)
                        && forall p: nat :: from <= p < r.value ==> !OccursAt(s, text, p)
    ensures r.None? ==> forall p: nat :: from <= p ==> !OccursAt(s, text, p)
    decreases |s| - from
  {
    if from + |text| > |s| then None
    else if OccursAt(s, text, from) then Some(from)
    else FindText(s, text, from + 1)
  }

  lemma FindTextIs(s: bytes, text: bytes, from: nat, p: nat)
    requires from <= p && OccursAt(s, text, p)
    requires forall q: nat :: from <= q < p ==> !OccursAt(s, text, q)
    ensures FindText(s, text, from) == Some(p)
  {}

  function PlusToSpace(s: bytes): bytes {
    seq(|s|, i requires 0 <= i < |s| => if s[i] == '+' then ' ' else s[i])
  }

  /** `value` is `raw` with a space in place of each plus sign, and nothing else changed. */
  ghost predicate Decodes(raw: bytes, value: bytes) {
    |value| == |raw| && forall i :: 0 <= i < |raw| ==> value[i] == if raw[i] == '+' then ' ' else raw[i]
  }

  lemma DecodesExactly(raw: bytes, value: bytes)
    ensures Decodes(raw, value) <==> value == PlusToSpace(raw)
    ensures Decodes(raw, value) ==> '+' !in value && |value| == |raw|
  {}

  /** The bytes from `start` to the next '&', or to the end. */
  function ValueAt(body: bytes, start: nat): bytes
    requires start <= |body|
  {
    var end := FindText(body, "&", start);
    if end.Some? then body[start..end.value] else body[start..]
  }

  function ExtractParam(body: bytes, key: bytes): bytes {
    match FindText(body, key + "=", 0)
    case None => ""
    case Some(p) => PlusToSpace(ValueAt(body, p + |key| + 1))
  }

  // --- Bodies ------------------------------------------------------------------------------------

  /** A part of a body between two '&'. */
  predicate Segment(s: bytes) {
    '&' !in s
  }

  predicate AllSegments(segments: seq<bytes>) {
    forall i :: 0 <= i < |segments| ==> Segment(segments[i])
  }

  function Join(segments: seq<bytes>): bytes {
    if segments == [] then ""
    else if |segments| == 1 then segments[0]
    else segments[0] + "&" + Join(segments[1..])
  }

  /** The segments of a body. */
  function Segments(body: bytes): (segments: seq<bytes>)
    decreases |body|
  {
    var i := IndexOf(body, '&');
    if i == |body| then [body] else [body[..i]] + Segments(body[i + 1..])
  }

  lemma {:induction false} JoinSegments(body: bytes)
    ensures Join(Segments(body)) == body && AllSegments(Segments(body)) && Segments(body) != []
    decreases |body|
  {
    var i := IndexOf(body, '&');
    if i == |body| {
      assert body[..i] == body;
    } else {
      var more := Segments(body[i + 1..]);
      JoinSegments(body[i + 1..]);
      assert ([body[..i]] + more)[1..] == more;
      SplitAtFirst(body, '&');
    }
  }

  /** What follows the first `key=` in the first segment that contains it, or nothing. */
  function FirstContaining(segments: seq<bytes>, key: bytes): bytes {
    if segments == [] then ""
    else match FindText(segments[0], key + "=", 0)
         case Some(p) => segments[0][p + |key| + 1..]
         case None => FirstContaining(segments[1..], key)
  }

  // --- Forms -------------------------------------------------------------------------------------

  datatype Pair = Pair(name: bytes, value: bytes)

  predicate Plain(s: bytes) {
    '=' !in s && '&' !in s
  }

  predicate PlainForm(form: seq<Pair>) {
    forall i :: 0 <= i < |form| ==> Plain(form[i].name) && Plain(form[i].value)
  }

  function Zip(names: seq<bytes>, values: seq<bytes>): (form: seq<Pair>)
    requires |names| == |values|
    ensures |form| == |names| && forall i :: 0 <= i < |form| ==> form[i] == Pair(names[i], values[i])
  {
    seq(|names|, i requires 0 <= i < |names| => Pair(names[i], values[i]))
  }

  function EncodePair(p: Pair): bytes {
    p.name + "=" + p.value
  }

  function Fields(form: seq<Pair>): (fields: seq<bytes>)
    ensures |fields| == |form| && forall i :: 0 <= i < |form| ==> fields[i] == EncodePair(form[i])
  {
    seq(|form|, i requires 0 <= i < |form| => EncodePair(form[i]))
  }

  /** k1=v1&k2=v2&... */
  function Encode(form: seq<Pair>): bytes {
    Join(Fields(form))
  }

  predicate EndsWith(s: bytes, suffix: bytes) {
    |suffix| <= |s| && s[|s| - |suffix|..] == suffix
  }

  /** The value of the first field whose name ends with `key`, or nothing. */
  function FirstEndingWith(form: seq<Pair>, key: bytes): bytes {
    if form == [] then ""
    else if EndsWith(form[0].name, key) then form[0].value
    else FirstEndingWith(form[1..], key)
  }

  /** What a caller means by looking `key` up. */
  function Lookup(form: seq<Pair>, key: bytes): bytes {
    if form == [] then ""
    else if form[0].name == key then form[0].value
    else Lookup(form[1..], key)
  }

  // --- Searching ---------------------------------------------------------------------------------

  lemma OccurrenceChar(s: bytes, text: bytes, q: nat, k: nat)
    requires OccursAt(s, text, q) && k < |text|
    ensures s[q + k] == text[k]
  {}

  lemma ExtractAt(body: bytes, key: bytes, p: nat) returns (start: nat)
    requires FindText(body, key + "=", 0) == Some(p)
    ensures start == p + |key| + 1 <= |body| && ExtractParam(body, key) == PlusToSpace(ValueAt(body, start))
  {
    start := p + |key| + 1;
  }

  lemma ValueEnds(head: bytes, value: bytes, tail: bytes)
    requires '&' !in value && (tail == "" || tail[0] == '&')
    ensures ValueAt(head + (value + tail), |head|) == value
  {
    var s, start, end := head + (value + tail), |head|, |head| + |value|;
    assert s[start..end] == value;
    forall q: nat | start <= q < end ensures !OccursAt(s, "&", q) {
      assert s[q] == value[q - start] && "&"[0] == '&';
    }
    if tail == "" {
      assert s[start..] == value;
    } else {
      FindTextIs(s, "&", start, end);
    }
  }

  lemma ShiftedOccurrence(head: bytes, s: bytes, text: bytes, q: nat)
    ensures OccursAt(head + s, text, |head| + q) <==> OccursAt(s, text, q)
  {
    if q + |text| <= |s| {
      assert (head + s)[|head| + q..|head| + q + |text|] == s[q..q + |text|];
    }
  }

  /** Searching from a place in the second part of a string is searching in that part. */
  lemma ShiftedFind(head: bytes, s: bytes, whole: bytes, text: bytes, from: nat, start: nat)
    requires whole == head + s && start == |head| + from
    ensures var found := FindText(s, text, from);
            FindText(whole, text, start) == if found.None? then None else Some(|head| + found.value)
  {
    var found := FindText(s, text, from);
    var stop := if found.Some? then |head| + found.value else |head| + |s| + 1;
    forall q: nat | start <= q < stop ensures !OccursAt(whole, text, q) {
      ShiftedOccurrence(head, s, text, q - |head|);
    }
    if found.Some? {
      ShiftedOccurrence(head, s, text, found.value);
      FindTextIs(whole, text, start, stop);
    }
  }

  lemma FindLater(s: bytes, text: bytes, from: nat)
    requires forall q: nat :: q < from ==> !OccursAt(s, text, q)
    ensures FindText(s, text, 0) == FindText(s, text, from)
  {
    var found := FindText(s, text, from);
    if found.Some? {
      FindTextIs(s, text, 0, found.value);
    }
  }

  /** When nothing begins inside `head`, the lookup is that of the rest. */
  lemma ExtractShifted(head: bytes, rest: bytes, whole: bytes, key: bytes)
    requires whole == head + rest
    requires forall q: nat :: q < |head| ==> !OccursAt(whole, key + "=", q)
    ensures ExtractParam(whole, key) == ExtractParam(rest, key)
  {
    FindShifted(head, rest, whole, key + "=");
    var found := FindText(rest, key + "=", 0);
    if found.Some? {
      SameExtract(head, rest, whole, key, |head| + found.value, found.value);
    }
  }

  lemma SameExtract(head: bytes, rest: bytes, whole: bytes, key: bytes, p1: nat, p2: nat)
    requires whole == head + rest && p1 == |head| + p2
    requires FindText(whole, key + "=", 0) == Some(p1) && FindText(rest, key + "=", 0) == Some(p2)
    ensures ExtractParam(whole, key) == ExtractParam(rest, key)
  {
    var start1 := ExtractAt(whole, key, p1);
    var start2 := ExtractAt(rest, key, p2);
    ValueShifted(head, rest, whole, start1, start2);
  }

  lemma FindShifted(head: bytes, rest: bytes, whole: bytes, text: bytes)
    requires whole == head + rest
    requires forall q: nat :: q < |head| ==> !OccursAt(whole, text, q)
    ensures var found := FindText(rest, text, 0);
            FindText(whole, text, 0) == if found.None? then None else Some(|head| + found.value)
  {
    FindLater(whole, text, |head|);
    ShiftedFind(head, rest, whole, text, 0, |head|);
  }

  lemma ValueShifted(head: bytes, rest: bytes, whole: bytes, start1: nat, start2: nat)
    requires whole == head + rest && start1 == |head| + start2 && start2 <= |rest|
    ensures ValueAt(whole, start1) == ValueAt(rest, start2)
  {
    ShiftedFind(head, rest, whole, "&", start2, start1);
    assert whole[start1..] == rest[start2..];
    var end := FindText(rest, "&", start2);
    if end.Some? {
      assert whole[start1..|head| + end.value] == rest[start2..end.value];
    }
  }

  // --- What the code computes ----------------------------------------------------------------------

  /** An occurrence that begins in a segment lies inside it. */
  lemma InsideSegment(segment: bytes, tail: bytes, key: bytes, q: nat)
    requires Segment(key) && (tail == "" || tail[0] == '&') && q <= |segment|
    requires OccursAt(segment + tail, key + "=", q)
    ensures OccursAt(segment, key + "=", q)
  {
    var whole, text := segment + tail, key + "=";
    if |segment| < q + |text| {
      OccurrenceChar(whole, text, q, |segment| - q);
    } else {
      forall i | 0 <= i < |text| ensures segment[q + i] == text[i] {
        OccurrenceChar(whole, text, q, i);
      }
    }
  }

  lemma FoundInSegment(segment: bytes, tail: bytes, key: bytes, at: nat)
    requires Segment(segment) && Segment(key) && (tail == "" || tail[0] == '&')
    requires FindText(segment, key + "=", 0) == Some(at)
    ensures at + |key| + 1 <= |segment|
    ensures ExtractParam(segment + tail, key) == PlusToSpace(segment[at + |key| + 1..])
  {
    FoundAsAlone(segment, tail, key, at);
    var start := ExtractAt(segment + tail, key, at);
    assert OccursAt(segment, key + "=", at);
    ValueInSegment(segment, tail, start);
    assert ValueAt(segment + tail, start) == segment[at + |key| + 1..];
  }

  lemma FoundAsAlone(segment: bytes, tail: bytes, key: bytes, at: nat)
    requires Segment(key) && (tail == "" || tail[0] == '&')
    requires FindText(segment, key + "=", 0) == Some(at)
    ensures FindText(segment + tail, key + "=", 0) == Some(at)
  {
    assert OccursAt(segment + tail, key + "=", at);
    forall q: nat | q < at ensures !OccursAt(segment + tail, key + "=", q) {
      if OccursAt(segment + tail, key + "=", q) {
        InsideSegment(segment, tail, key, q);
      }
    }
    FindTextIs(segment + tail, key + "=", 0, at);
  }

  lemma ValueInSegment(segment: bytes, tail: bytes, start: nat)
    requires Segment(segment) && (tail == "" || tail[0] == '&') && start <= |segment|
    ensures ValueAt(segment + tail, start) == segment[start..]
  {
    assert segment == segment[..start] + segment[start..];
    Regroup(segment[..start], segment[start..], tail);
    ValueEnds(segment[..start], segment[start..], tail);
  }

  lemma NotFoundInSegment(segment: bytes, tail: bytes, key: bytes, q: nat)
    requires Segment(key) && (tail == "" || tail[0] == '&') && q <= |segment|
    requires FindText(segment, key + "=", 0).None?
    ensures !OccursAt(segment + tail, key + "=", q)
  {
    if OccursAt(segment + tail, key + "=", q) {
      InsideSegment(segment, tail, key, q);
    }
  }

  lemma SkipSegment(segment: bytes, rest: bytes, key: bytes)
    requires Segment(key) && FindText(segment, key + "=", 0).None?
    ensures ExtractParam(segment + "&" + rest, key) == ExtractParam(rest, key)
  {
    var head := segment + "&";
    Regroup(segment, "&", rest);
    forall q: nat | q < |head| ensures !OccursAt(head + rest, key + "=", q) {
      NotFoundInSegment(segment, "&" + rest, key, q);
    }
    ExtractShifted(head, rest, head + rest, key);
  }

  lemma {:induction false} ExtractFromJoin(segments: seq<bytes>, key: bytes)
    requires AllSegments(segments) && Segment(key)
    ensures ExtractParam(Join(segments), key) == PlusToSpace(FirstContaining(segments, key))
    decreases |segments|
  {
    if segments != [] {
      var segment := segments[0];
      assert segment + "" == segment;
      var found := FindText(segment, key + "=", 0);
      if found.Some? {
        var tail := if |segments| == 1 then "" else "&" + Join(segments[1..]);
        if |segments| > 1 {
          Regroup(segment, "&", Join(segments[1..]));
        }
        FoundInSegment(segment, tail, key, found.value);
      } else if |segments| == 1 {
        assert FirstContaining(segments[1..], key) == "";
      } else {
        SkipSegment(segment, Join(segments[1..]), key);
        ExtractFromJoin(segments[1..], key);
      }
    }
  }

  /** What the code computes, for every body and every key without '&': what follows the first `key=`
      in the first segment that contains it, wherever in the segment that is, and the empty string if
      no segment contains it; with a space for each plus sign, and every other byte unchanged. */
  lemma ExtractFindsFirstSegment(body: bytes, key: bytes)
    requires Segment(key)
    ensures Decodes(FirstContaining(Segments(body), key), ExtractParam(body, key))
    ensures '+' !in ExtractParam(body, key)
  {
    JoinSegments(body);
    ExtractFromJoin(Segments(body), key);
    DecodesExactly(FirstContaining(Segments(body), key), ExtractParam(body, key));
  }

  /** In the segment of one field, `key=` begins where the name ends with the key, or in the value. */
  lemma OccurrenceInField(p: Pair, key: bytes, q: nat)
    requires Plain(p.name) && Plain(key) && OccursAt(EncodePair(p), key + "=", q)
    ensures (q + |key| == |p.name| && EndsWith(p.name, key)) || q > |p.name|
    ensures Plain(p.value) ==> q + |key| == |p.name|
  {
    var s, text := EncodePair(p), key + "=";
    OccurrenceChar(s, text, q, |key|);
    if q + |key| == |p.name| {
      forall i | 0 <= i < |key| ensures p.name[q + i] == key[i] {
        OccurrenceChar(s, text, q, i);
      }
    } else if q <= |p.name| {
      assert q + |key| > |p.name|;
      OccurrenceChar(s, text, q, |p.name| - q);
    }
  }

  lemma FieldFound(p: Pair, key: bytes)
    requires Plain(p.name) && Plain(key) && EndsWith(p.name, key)
    ensures FindText(EncodePair(p), key + "=", 0) == Some(|p.name| - |key|)
    ensures EncodePair(p)[|p.name| + 1..] == p.value
  {
    var s, at := EncodePair(p), |p.name| - |key|;
    assert s[at..at + |key| + 1] == p.name[at..] + "=";
    forall q: nat | q < at ensures !OccursAt(s, key + "=", q) {
      if OccursAt(s, key + "=", q) {
        OccurrenceInField(p, key, q);
      }
    }
    FindTextIs(s, key + "=", 0, at);
  }

  lemma FieldNotFound(p: Pair, key: bytes)
    requires Plain(p.name) && Plain(p.value) && Plain(key) && !EndsWith(p.name, key)
    ensures FindText(EncodePair(p), key + "=", 0) == None
  {
    var found := FindText(EncodePair(p), key + "=", 0);
    if found.Some? {
      OccurrenceInField(p, key, found.value);
    }
  }

  lemma FieldsAreSegments(form: seq<Pair>)
    requires forall i :: 0 <= i < |form| ==> Plain(form[i].name) && Segment(form[i].value)
    ensures AllSegments(Fields(form))
  {}

  /** For every form whose values hold no '=', the first field whose name ends with the key decides;
      the empty string if there is none. Each plus sign is read as a space. */
  lemma ExtractFindsFirstSuffix(form: seq<Pair>, key: bytes)
    requires PlainForm(form) && Plain(key)
    ensures Decodes(FirstEndingWith(form, key), ExtractParam(Encode(form), key))
    ensures '+' !in ExtractParam(Encode(form), key)
  {
    FieldsAreSegments(form);
    ExtractFromJoin(Fields(form), key);
    FirstSuffixContains(form, key);
    DecodesExactly(FirstEndingWith(form, key), ExtractParam(Encode(form), key));
  }

  lemma {:induction false} FirstSuffixContains(form: seq<Pair>, key: bytes)
    requires PlainForm(form) && Plain(key)
    ensures FirstContaining(Fields(form), key) == FirstEndingWith(form, key)
    decreases |form|
  {
    if form != [] {
      if EndsWith(form[0].name, key) {
        FieldFound(form[0], key);
      } else {
        FieldNotFound(form[0], key);
        assert Fields(form)[1..] == Fields(form[1..]);
        FirstSuffixContains(form[1..], key);
      }
    }
  }

  // --- Lookup inverts the encoding -----------------------------------------------------------------

  /** A value as a form sends it when each space becomes a plus sign. */
  function SpaceToPlus(s: bytes): (raw: bytes)
    ensures |raw| == |s| && forall i :: 0 <= i < |s| ==> raw[i] == if s[i] == ' ' then '+' else s[i]
  {
    seq(|s|, i requires 0 <= i < |s| => if s[i] == ' ' then '+' else s[i])
  }

  function Plussed(values: seq<bytes>): (raws: seq<bytes>)
    ensures |raws| == |values| && forall i :: 0 <= i < |values| ==> raws[i] == SpaceToPlus(values[i])
  {
    seq(|values|, i requires 0 <= i < |values| => SpaceToPlus(values[i]))
  }

  /** Round trip: values without '+', '=' and '&', sent with a plus sign for each space, come back, if
      no earlier name ends with the one looked up. */
  lemma LookupInvertsEncoding(names: seq<bytes>, values: seq<bytes>, k: nat)
    requires |names| == |values| && k < |names| && forall i :: 0 <= i < |names| ==> Plain(names[i])
    requires forall i :: 0 <= i < |values| ==> Plain(values[i]) && '+' !in values[i]
    requires forall i :: 0 <= i < k ==> !EndsWith(names[i], names[k])
    ensures ExtractParam(Encode(Zip(names, Plussed(values))), names[k]) == values[k]
  {
    var sent := Zip(names, Plussed(values));
    forall i | 0 <= i < |sent| ensures Plain(sent[i].name) && Plain(sent[i].value) {
      PlusIsPlain(values[i]);
    }
    ExtractFindsFirstSuffix(sent, names[k]);
    assert EndsWith(names[k], names[k]);
    FirstAt(sent, names[k], k);
    assert Decodes(SpaceToPlus(values[k]), values[k]);
    DecodesExactly(SpaceToPlus(values[k]), values[k]);
    DecodesExactly(SpaceToPlus(values[k]), ExtractParam(Encode(sent), names[k]));
  }

  lemma PlusIsPlain(s: bytes)
    requires Plain(s)
    ensures Plain(SpaceToPlus(s))
  {}

  lemma {:induction false} FirstAt(form: seq<Pair>, key: bytes, k: nat)
    requires k < |form| && EndsWith(form[k].name, key)
    requires forall i :: 0 <= i < k ==> !EndsWith(form[i].name, key)
    ensures FirstEndingWith(form, key) == form[k].value
    decreases k
  {
    if k > 0 {
      FirstAt(form[1..], key, k - 1);
    }
  }

  /** username=John+Smith gives John Smith. */
  lemma PlusIsReadAsSpace()
    ensures ExtractParam("username" + "=" + "John+Smith", "username") == "John Smith"
  {
    OneFieldInverts("username", "John Smith");
    assert SpaceToPlus("John Smith") == "John+Smith";
  }

  lemma OneFieldInverts(name: bytes, value: bytes)
    requires Plain(name) && Plain(value) && '+' !in value
    ensures ExtractParam(name + "=" + SpaceToPlus(value), name) == value
  {
    LookupInvertsEncoding([name], [value], 0);
    assert Fields(Zip([name], Plussed([value]))) == [name + "=" + SpaceToPlus(value)];
  }

  // --- When lookup is right ------------------------------------------------------------------------

  /** Lookup goes wrong for a name that merely ends with the key: uid=1&id=2 gives 1 for id. */
  lemma SuffixIsMistakenForKey()
    ensures var form := [Pair("uid", "1"), Pair("id", "2")];
            ExtractParam(Encode(form), "id") == "1" && Lookup(form, "id") == "2"
  {
    var form := [Pair("uid", "1"), Pair("id", "2")];
    ExtractFindsFirstSuffix(form, "id");
    assert form[0].name[1..] == "id";
    assert ExtractParam(Encode(form), "id") == "1";
    assert form[1..] == [Pair("id", "2")];
  }

  /** The first name ending with the key, if any, is the key itself. */
  predicate NoImpostor(names: seq<bytes>, key: bytes) {
    names == [] || (if EndsWith(names[0], key) then names[0] == key else NoImpostor(names[1..], key))
  }

  ghost predicate LooksUp(names: seq<bytes>, values: seq<bytes>, key: bytes)
    requires |names| == |values|
  {
    Decodes(Lookup(Zip(names, values), key), ExtractParam(Encode(Zip(names, values)), key))
  }

  /** Exactly, for values without '=', as a page that encodes its values sends them: with these field
      names, lookup is right for all such values if and only if no field before the sought one, or in
      its place, has a name that ends with the key. */
  lemma LookupIsRightExactly(names: seq<bytes>, key: bytes)
    requires Plain(key) && forall i :: 0 <= i < |names| ==> Plain(names[i])
    ensures NoImpostor(names, key) <==>
            forall values: seq<bytes> ::
              |values| == |names| && (forall v :: v in values ==> Plain(v)) ==> LooksUp(names, values, key)
  {
    forall values: seq<bytes> | |values| == |names| && forall v :: v in values ==> Plain(v)
      ensures Decodes(FirstEndingWith(Zip(names, values), key), ExtractParam(Encode(Zip(names, values)), key))
    {
      ExtractFindsFirstSuffix(Zip(names, values), key);
    }
    if NoImpostor(names, key) {
      forall values: seq<bytes> | |values| == |names| && forall v :: v in values ==> Plain(v)
        ensures LooksUp(names, values, key)
      {
        HonestNames(names, values, key);
      }
    } else {
      var values := Telltale(names, key);
      ImpostorShows(names, key);
      assert !LooksUp(names, values, key);
    }
  }

  lemma {:induction false} HonestNames(names: seq<bytes>, values: seq<bytes>, key: bytes)
    requires |names| == |values| && NoImpostor(names, key)
    ensures FirstEndingWith(Zip(names, values), key) == Lookup(Zip(names, values), key)
    decreases |names|
  {
    if names != [] {
      assert EndsWith(key, key);
      assert Zip(names, values)[1..] == Zip(names[1..], values[1..]);
      if !EndsWith(names[0], key) {
        HonestNames(names[1..], values[1..], key);
      }
    }
  }

  /** Values that give the first impostor away. */
  function Telltale(names: seq<bytes>, key: bytes): (values: seq<bytes>)
    ensures |values| == |names| && forall v :: v in values ==> Plain(v)
  {
    if names == [] then []
    else [if EndsWith(names[0], key) && names[0] != key then "1" else ""]
         + (if EndsWith(names[0], key) then seq(|names| - 1, _ => "") else Telltale(names[1..], key))
  }

  lemma {:induction false} ImpostorShows(names: seq<bytes>, key: bytes)
    requires !NoImpostor(names, key)
    ensures var form := Zip(names, Telltale(names, key));
            FirstEndingWith(form, key) == "1" && Lookup(form, key) == ""
    decreases |names|
  {
    var values := Telltale(names, key);
    var form := Zip(names, values);
    assert form[1..] == Zip(names[1..], values[1..]);
    if EndsWith(names[0], key) {
      BlankLookup(form[1..], key);
    } else {
      assert values[1..] == Telltale(names[1..], key);
      assert EndsWith(key, key);
      ImpostorShows(names[1..], key);
    }
  }

  lemma {:induction false} BlankLookup(form: seq<Pair>, key: bytes)
    requires forall i :: 0 <= i < |form| ==> form[i].value == ""
    ensures Lookup(form, key) == ""
    decreases |form|
  {
    if form != [] {
      BlankLookup(form[1..], key);
    }
  }

  // --- Values that may hold '=' ----------------------------------------------------------------------

  /** A value can pass for a field: a=id=5&id=2 gives 5 for id. */
  lemma ValueIsMistakenForField()
    ensures var form := [Pair("a", "id=5"), Pair("id", "2")];
            && Encode(form) == "a=id=5" + "&" + "id=2"
            && ExtractParam(Encode(form), "id") == "5" && Lookup(form, "id") == "2"
    ensures NoImpostor(["a", "id"], "id")
  {
    var form := [Pair("a", "id=5"), Pair("id", "2")];
    TwoFields(form[0], form[1]);
    assert EncodePair(form[0]) == "a=id=5";
    assert EncodePair(form[1]) == "id=2";
    ForgedValueIsTaken(form[0], form[1]);
    SecondIsLookedUp(form[0], form[1]);
  }

  lemma SecondIsLookedUp(a: Pair, b: Pair)
    requires a.name == "a" && b.name == "id"
    ensures Lookup([a, b], "id") == b.value && NoImpostor(["a", "id"], "id")
  {
    assert [a, b][1..] == [b];
    assert ["a", "id"][1..] == ["id"];
  }

  lemma TwoFields(a: Pair, b: Pair)
    ensures Encode([a, b]) == EncodePair(a) + "&" + EncodePair(b)
    ensures Fields([a, b]) == [EncodePair(a), EncodePair(b)]
  {
    assert Fields([a, b]) == [EncodePair(a), EncodePair(b)];
    assert Fields([a, b])[1..] == [EncodePair(b)];
    assert Join([EncodePair(b)]) == EncodePair(b);
  }

  lemma ForgedValueIsTaken(a: Pair, b: Pair)
    requires a == Pair("a", "id=5") && b == Pair("id", "2")
    ensures ExtractParam(Encode([a, b]), "id") == "5"
  {
    FoundInValue("a", "id", "5");
    assert a.value == "id" + "=" + "5";
    FieldsAreSegments([a, b]);
    ExtractFromJoin(Fields([a, b]), "id");
    TwoFields(a, b);
    assert PlusToSpace("5") == "5";
  }

  /** The segment name=key=value, when the name does not end with the key. */
  lemma FoundInValue(name: bytes, key: bytes, value: bytes)
    requires Plain(name) && Plain(key) && !EndsWith(name, key)
    ensures var segment := EncodePair(Pair(name, key + "=" + value));
            FindText(segment, key + "=", 0) == Some(|name| + 1) && segment[|name| + 1 + |key| + 1..] == value
  {
    var p := Pair(name, key + "=" + value);
    var head, text := name + "=", key + "=";
    assert EncodePair(p) == head + (text + value);
    Regroup(head, text, value);
    OccursAfter(head, text, value);
    forall q: nat | q < |head| ensures !OccursAt(EncodePair(p), text, q) {
      if OccursAt(EncodePair(p), text, q) {
        OccurrenceInField(p, key, q);
      }
    }
    FindTextIs(EncodePair(p), text, 0, |head|);
  }

  lemma OccursAfter(head: bytes, text: bytes, tail: bytes)
    ensures OccursAt(head + (text + tail), text, |head|)
    ensures (head + (text + tail))[|head| + |text|..] == tail
  {}

  /** Exactly, for all values a client can send: lookup is right for all of them if and only if the
      sought field comes first, or there are no fields. */
  lemma LookupIsRightForAllValuesExactly(names: seq<bytes>, key: bytes)
    requires Plain(key) && forall i :: 0 <= i < |names| ==> Plain(names[i])
    ensures names == [] || names[0] == key <==>
            forall values: seq<bytes> ::
              |values| == |names| && (forall v :: v in values ==> Segment(v)) ==> LooksUp(names, values, key)
  {
    if names == [] || names[0] == key {
      forall values: seq<bytes> | |values| == |names| && forall v :: v in values ==> Segment(v)
        ensures LooksUp(names, values, key)
      {
        FirstFieldIsFound(names, values, key);
      }
    } else {
      var values := Forged(names, key);
      ForgeryShows(names, key);
      assert !LooksUp(names, values, key);
    }
  }

  lemma ExtractFromForm(names: seq<bytes>, values: seq<bytes>, key: bytes)
    requires |values| == |names| && Plain(key)
    requires (forall i :: 0 <= i < |names| ==> Plain(names[i])) && forall v :: v in values ==> Segment(v)
    ensures Decodes(FirstContaining(Fields(Zip(names, values)), key), ExtractParam(Encode(Zip(names, values)), key))
  {
    var form := Zip(names, values);
    forall i | 0 <= i < |form| ensures Plain(form[i].name) && Segment(form[i].value) {
      assert values[i] in values;
    }
    FieldsAreSegments(form);
    ExtractFromJoin(Fields(form), key);
    DecodesExactly(FirstContaining(Fields(form), key), ExtractParam(Encode(form), key));
  }

  lemma FirstFieldIsFound(names: seq<bytes>, values: seq<bytes>, key: bytes)
    requires |values| == |names| && Plain(key) && (names == [] || names[0] == key)
    requires (forall i :: 0 <= i < |names| ==> Plain(names[i])) && forall v :: v in values ==> Segment(v)
    ensures LooksUp(names, values, key)
  {
    ExtractFromForm(names, values, key);
    if names != [] {
      assert EndsWith(key, key);
      FieldFound(Zip(names, values)[0], key);
    }
  }

  /** A first value that passes for the sought field, and empty ones after it. */
  function Forged(names: seq<bytes>, key: bytes): (values: seq<bytes>)
    requires names != [] && Plain(key)
    ensures |values| == |names| && forall v :: v in values ==> Segment(v)
  {
    [key + "=1"] + seq(|names| - 1, _ => "")
  }

  lemma ForgeryShows(names: seq<bytes>, key: bytes)
    requires names != [] && names[0] != key && Plain(key) && forall i :: 0 <= i < |names| ==> Plain(names[i])
    ensures !LooksUp(names, Forged(names, key), key)
  {
    var values := Forged(names, key);
    var form := Zip(names, values);
    ExtractFromForm(names, values, key);
    BlankLookup(form[1..], key);
    assert key + "=" + "1" == values[0];
    if EndsWith(names[0], key) {
      FieldFound(form[0], key);
    } else {
      FoundInValue(names[0], key, "1");
    }
  }
}
