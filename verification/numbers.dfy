/** Reading numbers from text as strtol and strtoull do (section 7.22.1.4 of C11, with a 64-bit long). */
module Numbers {
  import opened Machine

  predicate IsSpace(c: char) {
    c == ' ' || 9 <= c as int <= 13
  }

  /** The value of c as a digit of base 16; 16 when it is no digit at all. */
  function DigitValue(c: char): (v: nat)
    ensures v <= 16
  {
    if '0' <= c <= '9' then c as int - '0' as int
    else if 'a' <= c <= 'f' then c as int - 'a' as int + 10
    else if 'A' <= c <= 'F' then c as int - 'A' as int + 10
    else 16
  }

  predicate IsDigit(c: char, base: nat) {
    DigitValue(c) < base
  }

  predicate AllDigits(s: string, base: nat) {
    forall i :: 0 <= i < |s| ==> IsDigit(s[i], base)
  }

  function SkipSpace(s: string): string {
    if s != "" && IsSpace(s[0]) then SkipSpace(s[1..]) else s
  }

  /** How many characters at the front of s are digits. */
  function DigitSpan(s: string, base: nat): (n: nat)
    ensures n <= |s|
  {
    if s != "" && IsDigit(s[0], base) then 1 + DigitSpan(s[1..], base) else 0
  }

  /** The number that a string of digits stands for. */
  function DigitsValue(s: string, base: nat): nat
    requires AllDigits(s, base)
  {
    if s == "" then 0
    else DigitsValue(s[..|s| - 1], base) * base + DigitValue(s[|s| - 1])
  }

  lemma {:induction false} SpanIsDigits(s: string, base: nat)
    ensures AllDigits(s[..DigitSpan(s, base)], base)
    ensures DigitSpan(s, base) < |s| ==> !IsDigit(s[DigitSpan(s, base)], base)
  {
    if s != "" && IsDigit(s[0], base) {
      SpanIsDigits(s[1..], base);
      var n := DigitSpan(s[1..], base);
      assert s[..n + 1] == [s[0]] + s[1..][..n];
    }
  }

  /** The longest number at the front of a text: sign, magnitude and what follows it.
      Without a single digit there is no number, and the whole text is what follows. */
  datatype Scan = NoNumber | Number(negative: bool, magnitude: nat, rest: string)

  /** What the scan makes of the text behind spaces and sign. */
  function ScanUnsigned(negative: bool, u: string, base: nat): Scan
    requires base in {10, 16}
  {
    var prefixed := base == 16 && |u| >= 3 && u[0] == '0' && u[1] in {'x', 'X'} && IsDigit(u[2], 16);
    var v := if prefixed then u[2..] else u;
    var n := DigitSpan(v, base);
    SpanIsDigits(v, base);
    if n == 0 then NoNumber else Number(negative, DigitsValue(v[..n], base), v[n..])
  }

  function ScanNumber(s: string, base: nat): Scan
    requires base in {10, 16}
  {
    var t := SkipSpace(s);
    if t != "" && t[0] in {'-', '+'} then ScanUnsigned(t[0] == '-', t[1..], base) else ScanUnsigned(false, t, base)
  }

  function Clamp(x: int, lo: int, hi: int): int
    requires lo <= hi
  {
    if x < lo then lo else if x > hi then hi else x
  }

  function Signed(negative: bool, magnitude: nat): int {
    if negative then 0 - magnitude else magnitude
  }

  /** The result of strtol and the text it leaves unread. */
  function StrToL(s: string, base: nat): (int, string)
    requires base in {10, 16}
  {
    match ScanNumber(s, base)
    case NoNumber => (0, s)
    case Number(negative, m, rest) => (Clamp(Signed(negative, m), -INT64_LIMIT, INT64_LIMIT - 1), rest)
  }

  /** The result of strtoull and the text it leaves unread; a minus sign negates modulo 2^64. */
  function StrToULL(s: string, base: nat): (int, string)
    requires base in {10, 16}
  {
    match ScanNumber(s, base)
    case NoNumber => (0, s)
    case Number(negative, m, rest) =>
      (if m >= WORD64 then WORD64 - 1 else Signed(negative, m) % WORD64, rest)
  }

  // ----- option values

  datatype NumberKind = SignedInt | UnsignedInt | SignedLong | Unsigned64

  /** What is stored for a numeric option, and whether the text is accepted. The two unsigned
      kinds read the text again as hexadecimal when decimal leaves a rest. */
  function OptionReading(kind: NumberKind, s: string): (int, bool) {
    match kind
    case SignedInt =>
      var (v, rest) := StrToL(s, 10);
      (ToInt32(v), rest == "")
    case UnsignedInt =>
      var (v, rest) := StrToL(s, 10);
      var (h, rest') := StrToL(s, 16);
      if rest == "" then (v % WORD32, true) else (h % WORD32, rest' == "")
    case SignedLong =>
      var (v, rest) := StrToL(s, 10);
      (v, rest == "")
    case Unsigned64 =>
      var (v, rest) := StrToULL(s, 10);
      var (h, rest') := StrToULL(s, 16);
      if rest == "" then (v, true) else (h, rest' == "")
  }

  /** The value of an accepted text. */
  function OptionNumber(kind: NumberKind, s: string): Option<int> {
    var (v, accepted) := OptionReading(kind, s);
    if accepted then Some(v) else None
  }

  // ----- writing numbers

  const LOWER_DIGITS: string := "0123456789abcdef"

  lemma DivisionFacts(v: nat, base: nat)
    requires 2 <= base <= v
    ensures 0 < v / base < v && 0 <= v % base < base
    ensures v == (v / base) * base + v % base
  {
    assert (v / base) * 2 <= (v / base) * base;
  }

  /** The text of v in the given base, without leading zeros. */
  function Text(v: nat, base: nat): (s: string)
    requires 2 <= base <= 16
    ensures s != ""
  {
    if v < base then [LOWER_DIGITS[v]] else DivisionFacts(v, base); Text(v / base, base) + [LOWER_DIGITS[v % base]]
  }

  lemma {:induction false} TextValue(v: nat, base: nat)
    requires 2 <= base <= 16
    ensures AllDigits(Text(v, base), base) && DigitsValue(Text(v, base), base) == v
  {
    if v < base {
      assert DigitValue(LOWER_DIGITS[v]) == v;
      assert DigitsValue(Text(v, base)[..0], base) == 0;
    } else {
      DivisionFacts(v, base);
      var (front, last) := (Text(v / base, base), v % base);
      TextValue(v / base, base);
      assert DigitValue(LOWER_DIGITS[last]) == last;
      assert Text(v, base) == front + [LOWER_DIGITS[last]];
      assert (front + [LOWER_DIGITS[last]])[..|front|] == front;
    }
  }

  lemma {:induction false} SpanOfDigits(s: string, more: string, base: nat)
    requires AllDigits(s, base)
    requires more == "" || !IsDigit(more[0], base)
    ensures DigitSpan(s + more, base) == |s|
  {
    if s == "" {
      assert s + more == more;
    } else {
      assert (s + more)[1..] == s[1..] + more;
      SpanOfDigits(s[1..], more, base);
    }
  }

  /** Text that starts with a digit has no space, sign or hexadecimal prefix to skip. */
  lemma ScanDigits(s: string, more: string, base: nat)
    requires base in {10, 16} && s != "" && AllDigits(s, base)
    requires more == "" || !IsDigit(more[0], base)
    requires base == 16 ==> more == ""
    ensures ScanNumber(s + more, base) == Number(false, DigitsValue(s, base), more)
  {
    var t := s + more;
    assert t[0] == s[0] && IsDigit(s[0], base);
    assert SkipSpace(t) == t;
    assert |s| >= 2 ==> IsDigit(s[1], base) && t[1] == s[1];
    SpanOfDigits(s, more, base);
    SpanIsDigits(t, base);
    assert t[..|s|] == s && t[|s|..] == more;
  }

  lemma ScanPrefixed(s: string)
    requires s != "" && AllDigits(s, 16)
    ensures ScanNumber("0x" + s, 16) == Number(false, DigitsValue(s, 16), "")
    ensures ScanNumber("0x" + s, 10) == Number(false, 0, "x" + s)
  {
    var t := "0x" + s;
    assert SkipSpace(t) == t;
    assert t[2..] == s && t[2] == s[0];
    SpanOfDigits(s, "", 16);
    assert s + "" == s;
    assert s[..|s|] == s;
    assert t == "0" + ("x" + s);
    ScanDigits("0", "x" + s, 10);
    assert DigitsValue("0"[..0], 10) == 0;
  }

  function Limit(kind: NumberKind): nat {
    match kind
    case SignedInt => INT32_LIMIT
    case UnsignedInt => WORD32
    case SignedLong => INT64_LIMIT
    case Unsigned64 => WORD64
  }

  lemma ReadDecimal(kind: NumberKind, s: string, v: nat)
    requires ScanNumber(s, 10) == Number(false, v, "")
    ensures OptionNumber(kind, s).Some?
    ensures OptionNumber(kind, s) == Some(v) <==> v < Limit(kind)
  {
  }

  lemma ReadHex(kind: NumberKind, s: string, v: nat)
    requires kind in {UnsignedInt, Unsigned64} && s != ""
    requires ScanNumber(s, 10).NoNumber? || ScanNumber(s, 10).rest != ""
    requires ScanNumber(s, 16) == Number(false, v, "")
    ensures OptionNumber(kind, s).Some?
    ensures OptionNumber(kind, s) == Some(v) <==> v < Limit(kind)
  {
    hide ScanNumber;
  }

  /** Decimal text reads back exactly for the values that the variable can hold; larger ones are
      not refused but stored as something else. */
  lemma DecimalRoundTrip(kind: NumberKind, v: nat)
    ensures OptionNumber(kind, Text(v, 10)).Some?
    ensures OptionNumber(kind, Text(v, 10)) == Some(v) <==> v < Limit(kind)
  {
    hide *;
    TextValue(v, 10);
    ScanDigits(Text(v, 10), "", 10);
    assert Text(v, 10) + "" == Text(v, 10);
    ReadDecimal(kind, Text(v, 10), v);
  }

  /** Negative text of the signed kinds reads back exactly down to the least value. */
  lemma NegativeRoundTrip(kind: NumberKind, v: nat)
    requires kind in {SignedInt, SignedLong}
    ensures OptionNumber(kind, "-" + Text(v, 10)).Some?
    ensures OptionNumber(kind, "-" + Text(v, 10)) == Some(Signed(true, v)) <==> v <= Limit(kind)
  {
    hide Text, DigitsValue;
    var d := Text(v, 10);
    var t := "-" + d;
    TextValue(v, 10);
    assert SkipSpace(t) == t && t[1..] == d;
    SpanOfDigits(d, "", 10);
    assert d + "" == d && d[..|d|] == d && d[|d|..] == "";
  }

  /** The same holds for the unsigned kinds in hexadecimal with the prefix 0x. */
  lemma PrefixedHexRoundTrip(kind: NumberKind, v: nat)
    requires kind in {UnsignedInt, Unsigned64}
    ensures OptionNumber(kind, "0x" + Text(v, 16)).Some?
    ensures OptionNumber(kind, "0x" + Text(v, 16)) == Some(v) <==> v < Limit(kind)
  {
    hide *;
    TextValue(v, 16);
    ScanPrefixed(Text(v, 16));
    ReadHex(kind, "0x" + Text(v, 16), v);
  }

  predicate HasLetter(s: string) {
    exists i :: 0 <= i < |s| && !IsDigit(s[i], 10)
  }

  /** The decimal reading of a number falls short of its hexadecimal reading, except for one digit. */
  lemma {:induction false} DecimalReadingIsLess(s: string)
    requires s != "" && AllDigits(s, 10) && AllDigits(s, 16)
    ensures DigitsValue(s, 10) <= DigitsValue(s, 16)
    ensures DigitsValue(s[..|s| - 1], 16) > 0 ==> DigitsValue(s, 10) < DigitsValue(s, 16)
    ensures DigitsValue(s[..|s| - 1], 10) <= DigitsValue(s[..|s| - 1], 16)
  {
    var front := s[..|s| - 1];
    if front != "" {
      DecimalReadingIsLess(front);
    }
  }

  lemma {:induction false} HexSpan(s: string)
    requires AllDigits(s, 16) && HasLetter(s)
    ensures DigitSpan(s, 10) < |s|
  {
    if IsDigit(s[0], 10) {
      var i :| 0 <= i < |s| && !IsDigit(s[i], 10);
      assert s[1..][i - 1] == s[i];
      HexSpan(s[1..]);
    }
  }

  /** Hexadecimal text without the prefix reads back if and only if it contains a letter or
      is a single digit; otherwise it is silently taken for a decimal number. */
  lemma BareHexRoundTrip(kind: NumberKind, v: nat)
    requires kind in {UnsignedInt, Unsigned64} && v < Limit(kind)
    ensures OptionNumber(kind, Text(v, 16)) == Some(v) <==> HasLetter(Text(v, 16)) || v < 10
    ensures !HasLetter(Text(v, 16)) ==>
              && AllDigits(Text(v, 16), 10)
              && OptionNumber(kind, Text(v, 16)) == Some(DigitsValue(Text(v, 16), 10))
  {
    hide Text, DigitsValue, ScanNumber, OptionNumber, Limit;
    var t := Text(v, 16);
    TextValue(v, 16);
    ScanDigits(t, "", 16);
    assert t + "" == t;
    if HasLetter(t) {
      LetterStopsDecimal(t);
      ReadHex(kind, t, v);
    } else {
      ScanDigits(t, "", 10);
      DecimalTextOfHex(v);
      ReadDecimal(kind, t, DigitsValue(t, 10));
    }
  }

  lemma LetterStopsDecimal(s: string)
    requires AllDigits(s, 16) && HasLetter(s)
    ensures ScanNumber(s, 10).NoNumber? || ScanNumber(s, 10).rest != ""
  {
    HexSpan(s);
    assert SkipSpace(s) == s;
  }

  lemma DecimalTextOfHex(v: nat)
    requires AllDigits(Text(v, 16), 10) && AllDigits(Text(v, 16), 16)
    ensures DigitsValue(Text(v, 16), 10) <= v
    ensures DigitsValue(Text(v, 16), 10) == v <==> v < 10
  {
    var t := Text(v, 16);
    TextValue(v, 16);
    DecimalReadingIsLess(t);
    if v >= 16 {
      TextValue(v / 16, 16);
      assert t[..|t| - 1] == Text(v / 16, 16);
    } else {
      assert DigitsValue(t[..0], 10) == 0;
      assert t[0] == LOWER_DIGITS[v];
    }
  }

  /** An empty text is a number: it stands for 0. */
  lemma EmptyTextIsZero(kind: NumberKind)
    ensures OptionNumber(kind, "") == Some(0)
  {
  }
}
