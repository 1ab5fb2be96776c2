/** Which texts are accepted for a numeric option, and as which number. */
module NumberTexts {
  import opened Machine
  import opened Numbers

  // ----- the texts

  /** The white space of C: blank, tab, newline, vertical tab, form feed and carriage return. */
  predicate White(s: string) {
    forall i :: 0 <= i < |s| ==> s[i] in {' ', '\t', '\n', 11 as char, 12 as char, '\r'}
  }

  predicate DecimalDigits(s: string) {
    s != "" && forall i :: 0 <= i < |s| ==> '0' <= s[i] <= '9'
  }

  predicate HexDigits(s: string) {
    s != "" && forall i :: 0 <= i < |s| ==> '0' <= s[i] <= '9' || 'a' <= s[i] <= 'f' || 'A' <= s[i] <= 'F'
  }

  /** White space, at most one sign, perhaps the hexadecimal prefix, and digits. */
  datatype Numeral = Numeral(white: string, sign: string, prefix: string, digits: string)
  {
    function Text(): string {
      white + (sign + (prefix + digits))
    }

    predicate IsDecimal() {
      White(white) && sign in {"", "-", "+"} && prefix == "" && DecimalDigits(digits)
    }

    predicate IsHex() {
      White(white) && sign in {"", "-", "+"} && prefix in {"", "0x", "0X"} && HexDigits(digits)
    }
  }

  ghost predicate DecimalText(s: string) {
    exists n: Numeral :: n.IsDecimal() && s == n.Text()
  }

  ghost predicate HexText(s: string) {
    exists n: Numeral :: n.IsHex() && s == n.Text()
  }

  /** The value of digits, the most significant one first; DIGITS tells what each is worth. */
  const DIGITS: map<char, nat> := map[
    '0' := 0, '1' := 1, '2' := 2, '3' := 3, '4' := 4, '5' := 5, '6' := 6, '7' := 7, '8' := 8, '9' := 9,
    'a' := 10, 'b' := 11, 'c' := 12, 'd' := 13, 'e' := 14, 'f' := 15,
    'A' := 10, 'B' := 11, 'C' := 12, 'D' := 13, 'E' := 14, 'F' := 15]

  function Worth(c: char): nat {
    if c in DIGITS then DIGITS[c] else 16
  }

  function Magnitude(digits: string, base: nat): nat {
    if digits == "" then 0
    else Magnitude(digits[..|digits| - 1], base) * base + Worth(digits[|digits| - 1])
  }

  // ----- scanning them

  lemma DigitsAreWorth(c: char)
    ensures DigitValue(c) == Worth(c)
    ensures IsDigit(c, 10) <==> '0' <= c <= '9'
    ensures IsDigit(c, 16) <==> '0' <= c <= '9' || 'a' <= c <= 'f' || 'A' <= c <= 'F'
    ensures IsSpace(c) <==> c in {' ', '\t', '\n', 11 as char, 12 as char, '\r'}
  {
  }

  lemma DigitTexts(s: string)
    ensures DecimalDigits(s) <==> s != "" && AllDigits(s, 10)
    ensures HexDigits(s) <==> s != "" && AllDigits(s, 16)
    ensures White(s) <==> forall i :: 0 <= i < |s| ==> IsSpace(s[i])
  {
    hide IsDigit, IsSpace;
    forall i | 0 <= i < |s|
      ensures IsDigit(s[i], 10) <==> '0' <= s[i] <= '9'
      ensures IsDigit(s[i], 16) <==> '0' <= s[i] <= '9' || 'a' <= s[i] <= 'f' || 'A' <= s[i] <= 'F'
      ensures IsSpace(s[i]) <==> s[i] in {' ', '\t', '\n', 11 as char, 12 as char, '\r'}
    {
      DigitsAreWorth(s[i]);
    }
  }

  lemma {:induction false} MagnitudeOfDigits(s: string, base: nat)
    requires AllDigits(s, base)
    ensures DigitsValue(s, base) == Magnitude(s, base)
  {
    hide DigitValue, Worth;
    if s != "" {
      MagnitudeOfDigits(s[..|s| - 1], base);
      DigitsAreWorth(s[|s| - 1]);
    }
  }

  lemma {:induction false} WhiteIsSkipped(white: string, more: string)
    requires (forall i :: 0 <= i < |white| ==> IsSpace(white[i])) && (more == "" || !IsSpace(more[0]))
    ensures SkipSpace(white + more) == more
  {
    if white == "" {
      assert white + more == more;
    } else {
      assert (white + more)[1..] == white[1..] + more;
      WhiteIsSkipped(white[1..], more);
    }
  }

  lemma {:induction false} WhiteInFront(s: string) returns (white: string)
    ensures (forall i :: 0 <= i < |white| ==> IsSpace(white[i])) && s == white + SkipSpace(s)
  {
    if s != "" && IsSpace(s[0]) {
      var more := WhiteInFront(s[1..]);
      white := [s[0]] + more;
    } else {
      white := "";
    }
  }

  lemma WholeDigits(negative: bool, digits: string, base: nat)
    requires base in {10, 16} && digits != "" && AllDigits(digits, base)
    ensures ScanUnsigned(negative, digits, base) == Number(negative, DigitsValue(digits, base), "")
  {
    SpanOfDigits(digits, "", base);
    assert digits + "" == digits && digits[..|digits|] == digits;
    assert |digits| >= 2 ==> IsDigit(digits[1], base);
  }

  lemma WholePrefixed(negative: bool, prefix: string, digits: string)
    requires prefix in {"0x", "0X"} && digits != "" && AllDigits(digits, 16)
    ensures ScanUnsigned(negative, prefix + digits, 16) == Number(negative, DigitsValue(digits, 16), "")
  {
    var u := prefix + digits;
    assert u[2..] == digits && u[2] == digits[0];
    SpanOfDigits(digits, "", 16);
    assert digits + "" == digits && digits[..|digits|] == digits;
  }

  /** A text that is scanned to its end is a numeral. */
  lemma UnsignedIsWhole(negative: bool, u: string, base: nat) returns (prefix: string, digits: string)
    requires base in {10, 16} && ScanUnsigned(negative, u, base).Number? && ScanUnsigned(negative, u, base).rest == ""
    ensures u == prefix + digits && prefix in (if base == 16 then {"", "0x", "0X"} else {""})
    ensures digits != "" && AllDigits(digits, base)
    ensures ScanUnsigned(negative, u, base).magnitude == DigitsValue(digits, base)
  {
    var prefixed := base == 16 && |u| >= 3 && u[0] == '0' && u[1] in {'x', 'X'} && IsDigit(u[2], 16);
    if prefixed {
      prefix, digits := [u[0], u[1]], u[2..];
    } else {
      prefix, digits := "", u;
    }
    assert prefixed ==> prefix == "0x" || prefix == "0X";
    SpanIsDigits(digits, base);
    assert digits[..|digits|] == digits;
  }

  lemma ScanOfSigned(white: string, sign: string, u: string, base: nat)
    requires base in {10, 16} && White(white) && sign in {"", "-", "+"} && u != "" && IsDigit(u[0], 16)
    ensures ScanNumber(white + (sign + u), base) == ScanUnsigned(sign == "-", u, base)
  {
    hide ScanUnsigned, SkipSpace;
    DigitTexts(white);
    var t := sign + u;
    assert sign == "" ==> t == u;
    assert sign != "" ==> t[1..] == u && t[0] == sign[0];
    WhiteIsSkipped(white, t);
  }

  lemma ScanOfUnsigned(n: Numeral, base: nat)
    requires base in {10, 16} && (if base == 10 then n.IsDecimal() else n.IsHex())
    ensures var u := n.prefix + n.digits;
            && u != "" && IsDigit(u[0], 16)
            && ScanUnsigned(n.sign == "-", u, base) == Number(n.sign == "-", Magnitude(n.digits, base), "")
  {
    hide ScanUnsigned, DigitsValue, Magnitude;
    DigitTexts(n.digits);
    MagnitudeOfDigits(n.digits, base);
    if n.prefix == "" {
      assert n.prefix + n.digits == n.digits;
      WholeDigits(n.sign == "-", n.digits, base);
    } else {
      WholePrefixed(n.sign == "-", n.prefix, n.digits);
    }
  }

  /** A numeral is scanned to its end, with its sign and its magnitude. */
  lemma ScanOfNumeral(n: Numeral, base: nat)
    requires base in {10, 16} && (if base == 10 then n.IsDecimal() else n.IsHex())
    ensures ScanNumber(n.Text(), base) == Number(n.sign == "-", Magnitude(n.digits, base), "")
  {
    hide IsDigit, ScanNumber, ScanUnsigned, Magnitude, White;
    ScanOfUnsigned(n, base);
    ScanOfSigned(n.white, n.sign, n.prefix + n.digits, base);
  }

  /** And only numerals are. */
  lemma NumeralOfScan(s: string, base: nat) returns (n: Numeral)
    requires base in {10, 16} && ScanNumber(s, base).Number? && ScanNumber(s, base).rest == ""
    ensures s == n.Text() && if base == 10 then n.IsDecimal() else n.IsHex()
  {
    hide IsSpace, IsDigit, ScanUnsigned, SkipSpace, DigitsValue;
    var t := SkipSpace(s);
    var white := WhiteInFront(s);
    var signed := t != "" && t[0] in {'-', '+'};
    var u := if signed then t[1..] else t;
    var sign := if signed then [t[0]] else "";
    assert signed ==> sign == "-" || sign == "+";
    assert t == sign + u;
    var prefix, digits := UnsignedIsWhole(signed && t[0] == '-', u, base);
    n := Numeral(white, sign, prefix, digits);
    DigitTexts(white);
    DigitTexts(digits);
  }

  // ----- options

  /** What the kinds take for a number. The empty text is one, too. */
  ghost predicate Numeric(kind: NumberKind, s: string) {
    s == "" || DecimalText(s) || (kind in {UnsignedInt, Unsigned64} && HexText(s))
  }

  lemma ScanOfText(s: string)
    ensures DecimalText(s) <==> ScanNumber(s, 10).Number? && ScanNumber(s, 10).rest == ""
    ensures HexText(s) <==> ScanNumber(s, 16).Number? && ScanNumber(s, 16).rest == ""
  {
    hide ScanNumber;
    if n: Numeral :| n.IsDecimal() && s == n.Text() {
      ScanOfNumeral(n, 10);
    }
    if n: Numeral :| n.IsHex() && s == n.Text() {
      ScanOfNumeral(n, 16);
    }
    if ScanNumber(s, 10).Number? && ScanNumber(s, 10).rest == "" {
      var n := NumeralOfScan(s, 10);
    }
    if ScanNumber(s, 16).Number? && ScanNumber(s, 16).rest == "" {
      var n := NumeralOfScan(s, 16);
    }
  }

  /** A text is accepted exactly when it is empty, or a decimal numeral, or for the unsigned kinds
      a hexadecimal one. */
  lemma AcceptedTexts(kind: NumberKind, s: string)
    ensures OptionNumber(kind, s).Some? <==> Numeric(kind, s)
  {
    hide ScanNumber, DecimalText, HexText;
    ScanOfText(s);
    NothingToScan();
  }

  lemma NothingToScan()
    ensures ScanNumber("", 10).NoNumber? && ScanNumber("", 16).NoNumber?
  {
  }

  /** What a variable of the kind holds when a number x is too large or too small for 64 bits:
      the nearest number that fits, cut down to the size of the variable. */
  function Fitted(kind: NumberKind, negative: bool, m: nat): int {
    match kind
    case SignedLong => Nearest(negative, m)
    case SignedInt => ToInt32(Nearest(negative, m))
    case UnsignedInt => Nearest(negative, m) % 0x1_0000_0000
    case Unsigned64 =>
      if m > 0xffff_ffff_ffff_ffff then 0xffff_ffff_ffff_ffff
      else if negative && m > 0 then 0x1_0000_0000_0000_0000 - m
      else m
  }

  function Nearest(negative: bool, m: nat): int {
    if negative then if m > 0x8000_0000_0000_0000 then -0x8000_0000_0000_0000 else 0 - m
    else if m > 0x7fff_ffff_ffff_ffff then 0x7fff_ffff_ffff_ffff else m
  }

  lemma FittedDecimal(kind: NumberKind, s: string, negative: bool, m: nat)
    requires ScanNumber(s, 10) == Number(negative, m, "")
    ensures OptionNumber(kind, s) == Some(Fitted(kind, negative, m))
  {
    hide ScanNumber;
  }

  lemma FittedHex(kind: NumberKind, s: string, negative: bool, m: nat)
    requires kind in {UnsignedInt, Unsigned64} && s != ""
    requires ScanNumber(s, 10).Number? ==> ScanNumber(s, 10).rest != ""
    requires ScanNumber(s, 16) == Number(negative, m, "")
    ensures OptionNumber(kind, s) == Some(Fitted(kind, negative, m))
  {
    hide ScanNumber;
  }

  /** A numeral gives its own number where the variable can hold it, and the fitted one otherwise.
      What can be read as decimal is not read as hexadecimal. */
  lemma NumberOfNumeral(kind: NumberKind, n: Numeral)
    ensures n.IsDecimal() ==>
              OptionNumber(kind, n.Text()) == Some(Fitted(kind, n.sign == "-", Magnitude(n.digits, 10)))
    ensures n.IsHex() && kind in {UnsignedInt, Unsigned64} && !DecimalText(n.Text()) ==>
              OptionNumber(kind, n.Text()) == Some(Fitted(kind, n.sign == "-", Magnitude(n.digits, 16)))
    ensures OptionNumber(kind, "") == Some(0)
  {
    hide ScanNumber, OptionNumber, Magnitude;
    var s := n.Text();
    ScanOfText(s);
    if n.IsDecimal() {
      ScanOfNumeral(n, 10);
      FittedDecimal(kind, s, n.sign == "-", Magnitude(n.digits, 10));
    } else if n.IsHex() && kind in {UnsignedInt, Unsigned64} && !DecimalText(s) {
      ScanOfNumeral(n, 16);
      FittedHex(kind, s, n.sign == "-", Magnitude(n.digits, 16));
    }
    EmptyTextIsZero(kind);
  }

  /** Numbers that the variable can hold are not changed. */
  lemma FittedIsExact(kind: NumberKind, negative: bool, m: nat)
    ensures !negative ==> (Fitted(kind, negative, m) == m <==> m < Limit(kind))
    ensures negative && kind in {SignedInt, SignedLong} ==> (Fitted(kind, negative, m) == 0 - m <==> m <= Limit(kind))
  {
  }
}
