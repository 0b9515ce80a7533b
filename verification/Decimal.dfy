/** Decimal numbers as the C++ library reads and writes them: `std::stoull` and `std::to_string`. */
module Decimal {
  import opened Bytes

  // ULLONG_MAX + 1. `size_t` is taken to be as wide as `unsigned long long`.
  const TWO_TO_THE_64: nat := 0x1_0000_0000_0000_0000

  datatype Conversion = Number(n: nat) | InvalidArgument | OutOfRange

  predicate IsDigit(c: char) {
    '0' <= c <= '9'
  }

  // `isspace` in the "C" locale: space, \t, \n, \v, \f, \r.
  predicate IsSpace(c: char) {
    c == ' ' || '\t' <= c <= '\r'
  }

  function SkipBlanks(s: bytes): bytes {
    if s != "" && IsSpace(s[0]) then SkipBlanks(s[1..]) else s
  }

  /** The longest prefix made of digits. */
  function DigitPrefix(s: bytes): (p: bytes)
    ensures p <= s && AllDigits(p)
  {
    if s != "" && IsDigit(s[0]) then [s[0]] + DigitPrefix(s[1..]) else ""
  }

  predicate AllDigits(s: bytes) {
    forall i :: 0 <= i < |s| ==> IsDigit(s[i])
  }

  function DigitsValue(s: bytes): nat
    requires AllDigits(s)
  {
    if s == "" then 0 else 10 * DigitsValue(s[..|s| - 1]) + (s[|s| - 1] as nat - '0' as nat)
  }

  function SkipSign(s: bytes): bytes {
    if s != "" && (s[0] == '+' || s[0] == '-') then s[1..] else s
  }

  /** `std::stoull(s)` in base 10: blanks, an optional sign, digits; what follows them is ignored.
      A minus sign negates modulo 2^64, as `strtoull` does. */
  function Stoull(s: bytes): (r: Conversion)
    ensures r.Number? ==> r.n < TWO_TO_THE_64
  {
    var t := SkipBlanks(s);
    var digits := DigitPrefix(SkipSign(t));
    if digits == "" then InvalidArgument
    else
      var n := DigitsValue(digits);
      if n >= TWO_TO_THE_64 then OutOfRange
      else if t[0] == '-' && n > 0 then Number(TWO_TO_THE_64 - n)
      else Number(n)
  }

  // --- What is read, by the shape of the text ---------------------------------------------------

  /** Blanks, an optional sign, at least one digit, and whatever else follows. The blanks are space,
      tab, line feed, vertical tab, form feed and carriage return. */
  predicate NumeralWith(s: bytes, blanks: bytes, sign: bytes, digits: bytes, rest: bytes) {
    && s == blanks + (sign + (digits + rest))
    && (forall c :: c in blanks ==> c in " \t\n\U{0B}\U{0C}\r")
    && (sign == "" || sign == "+" || sign == "-")
    && digits != "" && AllDigits(digits) && (rest == "" || !IsDigit(rest[0]))
  }

  lemma {:induction false} SkipBlanksPrefix(blanks: bytes, t: bytes)
    requires (forall c :: c in blanks ==> IsSpace(c)) && (t == "" || !IsSpace(t[0]))
    ensures SkipBlanks(blanks + t) == t
    decreases |blanks|
  {
    if blanks == "" {
      assert blanks + t == t;
    } else {
      assert (blanks + t)[1..] == blanks[1..] + t;
      assert forall c :: c in blanks[1..] ==> c in blanks;
      SkipBlanksPrefix(blanks[1..], t);
    }
  }

  lemma {:induction false} DigitPrefixStops(digits: bytes, rest: bytes)
    requires AllDigits(digits) && (rest == "" || !IsDigit(rest[0]))
    ensures DigitPrefix(digits + rest) == digits
    decreases |digits|
  {
    if digits == "" {
      assert digits + rest == rest;
    } else {
      assert (digits + rest)[1..] == digits[1..] + rest;
      DigitPrefixStops(digits[1..], rest);
    }
  }

  lemma {:induction false} DigitPrefixLongest(s: bytes)
    ensures var rest := s[|DigitPrefix(s)|..]; rest == "" || !IsDigit(rest[0])
    decreases |s|
  {
    if s != "" && IsDigit(s[0]) {
      DigitPrefixLongest(s[1..]);
    }
  }

  lemma {:induction false} SkipBlanksSplits(s: bytes) returns (blanks: bytes)
    ensures s == blanks + SkipBlanks(s) && forall c :: c in blanks ==> IsSpace(c)
    decreases |s|
  {
    blanks := "";
    if s != "" && IsSpace(s[0]) {
      var more := SkipBlanksSplits(s[1..]);
      blanks := [s[0]] + more;
      assert s == [s[0]] + s[1..];
    }
  }

  lemma SpacesInBytes(c: char)
    ensures IsSpace(c) <==> c in " \t\n\U{0B}\U{0C}\r"
  {
    var blanks := " \t\n\U{0B}\U{0C}\r";
    assert forall i :: 0 <= i < |blanks| ==> IsSpace(blanks[i]);
    assert c == '\U{0B}' ==> c == blanks[3];
    assert c == '\U{0C}' ==> c == blanks[4];
  }

  /** The value of a numeral: out of range from 2^64 on, and negated modulo 2^64 after a minus sign. */
  lemma StoullReads(s: bytes, blanks: bytes, sign: bytes, digits: bytes, rest: bytes)
    requires NumeralWith(s, blanks, sign, digits, rest)
    ensures var value := DigitsValue(digits);
            if value >= TWO_TO_THE_64 then Stoull(s) == OutOfRange
            else Stoull(s).Number?
                 && (if sign == "-" then (Stoull(s).n + value) % TWO_TO_THE_64 == 0 else Stoull(s).n == value)
  {
    var t := sign + (digits + rest);
    assert IsDigit(digits[0]) && (digits + rest)[0] == digits[0];
    forall c | c in blanks ensures IsSpace(c) {
      SpacesInBytes(c);
    }
    SkipBlanksPrefix(blanks, t);
    SkipSignPrefix(sign, digits + rest);
    DigitPrefixStops(digits, rest);
  }

  lemma SkipSignPrefix(sign: bytes, u: bytes)
    requires (sign == "" || sign == "+" || sign == "-") && u != "" && IsDigit(u[0])
    ensures SkipSign(sign + u) == u && ((sign + u)[0] == '-' <==> sign == "-")
  {
    assert sign == "" ==> sign + u == u;
    assert sign != "" ==> (sign + u)[1..] == u;
  }

  /** Anything else is an invalid argument. */
  lemma StoullRejectsExactly(s: bytes)
    ensures Stoull(s) == InvalidArgument <==>
            !exists blanks, sign, digits, rest :: NumeralWith(s, blanks, sign, digits, rest)
  {
    if blanks, sign, digits, rest :| NumeralWith(s, blanks, sign, digits, rest) {
      StoullReads(s, blanks, sign, digits, rest);
    }
    if Stoull(s) != InvalidArgument {
      var blanks, sign, digits, rest := NumeralFound(s);
    }
  }

  lemma NumeralFound(s: bytes) returns (blanks: bytes, sign: bytes, digits: bytes, rest: bytes)
    requires Stoull(s) != InvalidArgument
    ensures NumeralWith(s, blanks, sign, digits, rest)
  {
    var t := SkipBlanks(s);
    blanks := SkipBlanksSplits(s);
    forall c | c in blanks ensures c in " \t\n\U{0B}\U{0C}\r" {
      SpacesInBytes(c);
    }
    sign, digits, rest := SignAndDigits(t);
    DigitsFound(s);
  }

  lemma SignAndDigits(t: bytes) returns (sign: bytes, digits: bytes, rest: bytes)
    ensures t == sign + (digits + rest) && digits == DigitPrefix(SkipSign(t))
    ensures (sign == "" || sign == "+" || sign == "-") && (rest == "" || !IsDigit(rest[0]))
  {
    var u := SkipSign(t);
    sign := SignOf(t);
    digits := DigitPrefix(u);
    DigitPrefixLongest(u);
    rest := u[|digits|..];
    assert u == digits + rest;
  }

  lemma SignOf(t: bytes) returns (sign: bytes)
    ensures t == sign + SkipSign(t) && (sign == "" || sign == "+" || sign == "-")
  {
    sign := if SkipSign(t) == t then "" else [t[0]];
  }

  lemma DigitsFound(s: bytes)
    requires Stoull(s) != InvalidArgument
    ensures DigitPrefix(SkipSign(SkipBlanks(s))) != ""
  {}

  /** `std::to_string` of an unsigned number: digits, without leading zeros. */
  function ToString(n: nat): (s: bytes)
    ensures s != "" && AllDigits(s)
    ensures if n == 0 then s == "0" else s[0] != '0'
  {
    var last := ['0' + (n % 10) as char];
    if n < 10 then last else ToString(n / 10) + last
  }

  lemma {:induction false} ToStringValue(n: nat)
    ensures DigitsValue(ToString(n)) == n
  {
    var s := ToString(n);
    var d := '0' + (n % 10) as char;
    assert s[|s| - 1] == d && d as nat - '0' as nat == n % 10;
    if n < 10 {
      assert s[..|s| - 1] == "";
    } else {
      ToStringValue(n / 10);
      assert s[..|s| - 1] == ToString(n / 10);
    }
  }

  /** A printed number is read, whatever follows it that is not a digit. */
  lemma StoullOfNumber(n: nat, rest: bytes)
    requires n < TWO_TO_THE_64 && (rest == "" || !IsDigit(rest[0]))
    ensures Stoull(ToString(n) + rest) == Number(n)
  {
    var digits := ToString(n);
    assert digits + rest == "" + ("" + (digits + rest));
    ToStringValue(n);
    StoullReads(digits + rest, "", "", digits, rest);
  }

  /** `stoull(to_string(n)) == n` for every `size_t`. */
  lemma StoullToString(n: nat)
    requires n < TWO_TO_THE_64
    ensures Stoull(ToString(n)) == Number(n)
  {
    StoullOfNumber(n, "");
    assert ToString(n) + "" == ToString(n);
  }

  /** The numerals are those of base ten, and the first number too large is 2^64. */
  lemma NumbersInBytes(rest: bytes)
    requires rest == "" || !('0' <= rest[0] <= '9')
    ensures ToString(1234567890) == "1234567890"
    ensures Stoull(ToString(18446744073709551615) + rest) == Number(18446744073709551615)
    ensures Stoull(ToString(18446744073709551616) + rest) == OutOfRange
    ensures Stoull("-" + (ToString(5) + rest)) == Number(18446744073709551611)
  {
    TenDigits();
    StoullOfNumber(18446744073709551615, rest);
    var digits := ToString(18446744073709551616);
    ToStringValue(18446744073709551616);
    assert digits + rest == "" + ("" + (digits + rest));
    StoullReads(digits + rest, "", "", digits, rest);
    MinusFive(rest);
  }

  lemma MinusFive(rest: bytes)
    requires rest == "" || !IsDigit(rest[0])
    ensures Stoull("-" + (ToString(5) + rest)) == Number(TWO_TO_THE_64 - 5)
  {
    var s := "-" + (ToString(5) + rest);
    assert s == "" + s;
    ToStringValue(5);
    StoullReads(s, "", "-", ToString(5), rest);
  }

  lemma TenDigits()
    ensures ToString(1234567890) == "1234567890"
  {
    assert ToString(12345) == "12345" by {
      assert ToString(123) == "123" by {
        assert ToString(12) == ToString(1) + "2";
      }
      assert ToString(1234) == "1234";
    }
    assert ToString(12345678) == "12345678" by {
      assert ToString(123456) == "123456";
      assert ToString(1234567) == "1234567";
    }
    assert ToString(123456789) == "123456789";
  }
}
