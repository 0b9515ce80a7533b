/** Which values of a form survive the trip from the page that sends them, which percent-encodes
    every value, to `_extractParam`, which does not decode. */
module FormEncoding {
  import opened Bytes
  import opened FormLookup

  // The characters `encodeURIComponent` leaves alone.
  predicate Unreserved(c: char) {
    'A' <= c <= 'Z' || 'a' <= c <= 'z' || '0' <= c <= '9' || c in "-_.!~*'()"
  }

  predicate AllUnreserved(s: bytes) {
    forall i :: 0 <= i < |s| ==> Unreserved(s[i])
  }

  function HexDigit(n: nat): char
    requires n < 16
  {
    "0123456789ABCDEF"[n]
  }

  function EncodeOctet(c: char): bytes {
    if Unreserved(c) then [c]
    else
      var n := c as nat % 256;
      ['%', HexDigit(n / 16), HexDigit(n % 16)]
  }

  /** `encodeURIComponent` on a text given by its UTF-8 octets. */
  function PercentEncode(s: bytes): bytes {
    if s == "" then "" else EncodeOctet(s[0]) + PercentEncode(s[1..])
  }

  lemma OctetIsPlain(c: char)
    ensures Plain(EncodeOctet(c)) && '+' !in EncodeOctet(c) && |EncodeOctet(c)| >= 1
    ensures |EncodeOctet(c)| == 1 <==> Unreserved(c)
  {
    assert forall n: nat :: n < 16 ==> '0' <= HexDigit(n) <= '9' || 'A' <= HexDigit(n) <= 'F';
  }

  lemma {:induction false} EncodedIsPlain(s: bytes)
    ensures Plain(PercentEncode(s)) && '+' !in PercentEncode(s)
    decreases |s|
  {
    if s != "" {
      OctetIsPlain(s[0]);
      EncodedIsPlain(s[1..]);
    }
  }

  lemma {:induction false} EncodedIsLonger(s: bytes)
    ensures |PercentEncode(s)| >= |s|
    ensures |PercentEncode(s)| == |s| <==> AllUnreserved(s)
    decreases |s|
  {
    if s != "" {
      OctetIsPlain(s[0]);
      EncodedIsLonger(s[1..]);
      assert AllUnreserved(s) <==> Unreserved(s[0]) && AllUnreserved(s[1..]) by {
        assert s == [s[0]] + s[1..];
      }
    }
  }

  lemma {:induction false} UnreservedIsKept(s: bytes)
    requires AllUnreserved(s)
    ensures PercentEncode(s) == s
    decreases |s|
  {
    if s != "" {
      UnreservedIsKept(s[1..]);
      assert s == [s[0]] + s[1..];
    }
  }

  /** Encoding is the identity on exactly the texts without reserved characters. */
  lemma EncodingKeepsExactly(s: bytes)
    ensures PercentEncode(s) == s <==> AllUnreserved(s)
  {
    EncodedIsLonger(s);
    if AllUnreserved(s) {
      UnreservedIsKept(s);
    }
  }

  function HexValue(c: char): (n: nat)
    ensures n < 16
  {
    if '0' <= c <= '9' then c as nat - '0' as nat
    else if 'A' <= c <= 'F' then 10 + (c as nat - 'A' as nat)
    else if 'a' <= c <= 'f' then 10 + (c as nat - 'a' as nat)
    else 0
  }

  /** The decoding that the code leaves out: a percent sign and two hexadecimal digits stand for an octet. */
  function PercentDecode(s: bytes): bytes {
    if s == "" then ""
    else if s[0] == '%' && |s| >= 3 then [(16 * HexValue(s[1]) + HexValue(s[2])) as char] + PercentDecode(s[3..])
    else [s[0]] + PercentDecode(s[1..])
  }

  predicate Octets(s: bytes) {
    forall i :: 0 <= i < |s| ==> s[i] as nat < 256
  }

  lemma HexRoundTrip(n: nat)
    requires n < 256
    ensures 16 * HexValue(HexDigit(n / 16)) + HexValue(HexDigit(n % 16)) == n
  {
    assert forall k: nat :: k < 16 ==> HexValue(HexDigit(k)) == k;
  }

  lemma EscapeOf(c: char) returns (high: char, low: char)
    requires c as nat < 256 && !Unreserved(c)
    ensures EncodeOctet(c) == ['%', high, low] && 16 * HexValue(high) + HexValue(low) == c as nat
  {
    var n := c as nat % 256;
    high, low := HexDigit(n / 16), HexDigit(n % 16);
    HexRoundTrip(n);
  }

  lemma DecodeFirst(c: char, more: bytes)
    requires c as nat < 256
    ensures PercentDecode(EncodeOctet(c) + more) == [c] + PercentDecode(more)
  {
    if Unreserved(c) {
      DecodeUnreserved(c, more);
    } else {
      var high, low := EscapeOf(c);
      DecodeEscape(high, low, more);
    }
  }

  lemma DecodeUnreserved(c: char, more: bytes)
    requires c != '%'
    ensures PercentDecode([c] + more) == [c] + PercentDecode(more)
  {
    assert ([c] + more)[1..] == more;
  }

  lemma DecodeEscape(high: char, low: char, more: bytes)
    ensures PercentDecode(['%', high, low] + more)
         == [(16 * HexValue(high) + HexValue(low)) as char] + PercentDecode(more)
  {
    assert (['%', high, low] + more)[3..] == more;
  }

  /** Decoding would undo the encoding of every text. */
  lemma {:induction false} DecodeInvertsEncode(s: bytes)
    requires Octets(s)
    ensures PercentDecode(PercentEncode(s)) == s
    decreases |s|
  {
    if s != "" {
      DecodeFirst(s[0], PercentEncode(s[1..]));
      DecodeInvertsEncode(s[1..]);
      assert s == [s[0]] + s[1..];
    }
  }

  lemma NoPlusNoSpace(s: bytes)
    requires '+' !in s
    ensures PlusToSpace(s) == s
  {}

  function EncodedForm(names: seq<bytes>, values: seq<bytes>): (form: seq<Pair>)
    requires |names| == |values|
    ensures |form| == |names|
    ensures forall i :: 0 <= i < |form| ==> form[i] == Pair(names[i], PercentEncode(values[i]))
  {
    seq(|names|, i requires 0 <= i < |names| => Pair(names[i], PercentEncode(values[i])))
  }

  /** For every form sent with its values percent-encoded, the field that is looked up comes back as
      its encoding, and as the text that was entered if and only if that has no reserved character;
      decoding it would give that text, whatever it is. */
  lemma EnteredValueSurvivesExactly(names: seq<bytes>, values: seq<bytes>, k: nat)
    requires |names| == |values| && k < |names| && forall i :: 0 <= i < |names| ==> Plain(names[i])
    requires forall i :: 0 <= i < k ==> !EndsWith(names[i], names[k])
    ensures var found := ExtractParam(Encode(EncodedForm(names, values)), names[k]);
            && found == PercentEncode(values[k]) && (found == values[k] <==> AllUnreserved(values[k]))
            && (Octets(values[k]) ==> PercentDecode(found) == values[k])
  {
    var form := EncodedForm(names, values);
    forall i | 0 <= i < |form| ensures Plain(form[i].name) && Plain(form[i].value) {
      EncodedIsPlain(values[i]);
    }
    ExtractFindsFirstSuffix(form, names[k]);
    assert EndsWith(names[k], names[k]);
    FirstAt(form, names[k], k);
    EncodedIsPlain(values[k]);
    NoPlusNoSpace(PercentEncode(values[k]));
    EncodingKeepsExactly(values[k]);
    if Octets(values[k]) {
      DecodeInvertsEncode(values[k]);
    }
  }

  /** The body that the registration page sends. */
  function RegisterBody(username: bytes, password: bytes, email: bytes): bytes {
    "username=" + PercentEncode(username) + "&password=" + PercentEncode(password) + "&email=" + PercentEncode(email)
  }

  const FIELDS: seq<bytes> := ["username", "password", "email"]

  lemma EncodeThree(a: Pair, b: Pair, c: Pair)
    ensures Encode([a, b, c])
            == a.name + "=" + a.value + ("&" + b.name + "=") + b.value + ("&" + c.name + "=") + c.value
  {
    var fields := [EncodePair(a), EncodePair(b), EncodePair(c)];
    assert Fields([a, b, c]) == fields;
    assert fields[1..] == [EncodePair(b), EncodePair(c)] && fields[1..][1..] == [EncodePair(c)];
    assert Join(fields[1..]) == EncodePair(b) + "&" + EncodePair(c);
  }

  lemma RegisterBodyIsForm(username: bytes, password: bytes, email: bytes)
    ensures RegisterBody(username, password, email) == Encode(EncodedForm(FIELDS, [username, password, email]))
  {
    var form := EncodedForm(FIELDS, [username, password, email]);
    assert form == [form[0], form[1], form[2]];
    EncodeThree(form[0], form[1], form[2]);
    assert "username" + "=" == "username=";
    assert "&" + "password" + "=" == "&password=";
    assert "&" + "email" + "=" == "&email=";
  }

  /** The registration handler reads each of the three texts as entered if and only if it has no
      reserved character, and otherwise its encoding, which decoding would turn into the text. */
  lemma RegistrationReadsExactly(texts: seq<bytes>, k: nat)
    requires |texts| == 3 && k < 3
    ensures var found := ExtractParam(RegisterBody(texts[0], texts[1], texts[2]), FIELDS[k]);
            && found == PercentEncode(texts[k]) && (found == texts[k] <==> AllUnreserved(texts[k]))
            && (Octets(texts[k]) ==> PercentDecode(found) == texts[k])
  {
    assert texts == [texts[0], texts[1], texts[2]];
    RegisterBodyIsForm(texts[0], texts[1], texts[2]);
    FieldNamesDiffer();
    EnteredValueSurvivesExactly(FIELDS, texts, k);
  }

  /** An at sign is read as %40. */
  lemma AtSignIsRead(before: bytes, after: bytes)
    requires AllUnreserved(before) && AllUnreserved(after)
    ensures ExtractParam("email=" + PercentEncode(before + "@" + after), "email") == before + "%40" + after
  {
    var text := before + "@" + after;
    EnteredValueSurvivesExactly(["email"], [text], 0);
    assert Encode(EncodedForm(["email"], [text])) == "email=" + PercentEncode(text) by {
      assert "email" + "=" == "email=";
    }
    EncodeParts(before, "@" + after);
    EncodeParts("@", after);
    Regroup(before, "@", after);
    Regroup(before, "%40", after);
    UnreservedIsKept(before);
    UnreservedIsKept(after);
    AtSignEncoded();
  }

  lemma AtSignEncoded()
    ensures PercentEncode("@") == "%40"
  {
    assert EncodeOctet('@') == "%40" && PercentEncode("") == "";
    assert "@"[1..] == "" && "%40" + "" == "%40";
  }

  lemma {:induction false} EncodeParts(s: bytes, t: bytes)
    ensures PercentEncode(s + t) == PercentEncode(s) + PercentEncode(t)
    decreases |s|
  {
    if s == "" {
      assert s + t == t;
    } else {
      assert (s + t)[1..] == s[1..] + t;
      EncodeParts(s[1..], t);
    }
  }

  /** So it reads no e-mail address as entered. */
  lemma EmailIsNotReadAsEntered(username: bytes, password: bytes, email: bytes)
    requires '@' in email
    ensures ExtractParam(RegisterBody(username, password, email), "email") != email
  {
    RegistrationReadsExactly([username, password, email], 2);
    assert !Unreserved('@');
  }

  lemma FieldNamesDiffer()
    ensures forall i :: 0 <= i < |FIELDS| ==> Plain(FIELDS[i])
    ensures forall i, k :: 0 <= i < k < |FIELDS| ==> !EndsWith(FIELDS[i], FIELDS[k])
  {
    assert "username"[7] == 'e' && "password"[7] == 'd' && "email"[4] == 'l';
  }
}
