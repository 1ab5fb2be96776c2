/** The text form of UUIDs (section 3 of RFC 4122), uuid_unparse and uuid_parse. */
module Uuid {
  import opened Machine
  import opened Numbers

  const BYTES := 16
  const TEXT_LENGTH := 36

  /** A dash stands before these bytes. */
  predicate DashBefore(i: nat) {
    i in {4, 6, 8, 10}
  }

  /** How many dashes the text of the first i bytes contains. */
  function Dashes(i: nat): nat {
    if i <= 4 then 0 else if i <= 6 then 1 else if i <= 8 then 2 else if i <= 10 then 3 else 4
  }

  /** Where the digits of byte i start, without a dash before them. */
  function Offset(i: nat): nat {
    2 * i + Dashes(i)
  }

  function HexDigit(v: nat): char
    requires v < 16
  {
    LOWER_DIGITS[v]
  }

  function HexPair(b: byte): (s: string)
    ensures |s| == 2
  {
    [HexDigit(b / 16), HexDigit(b % 16)]
  }

  function Hex(bytes: seq<byte>): string {
    if bytes == [] then "" else Hex(bytes[..|bytes| - 1]) + HexPair(bytes[|bytes| - 1])
  }

  /** Five groups of lower-case digits, joined by dashes. */
  function TextForm(bytes: seq<byte>): string
    requires |bytes| == BYTES
  {
    Hex(bytes[..4]) + "-" + Hex(bytes[4..6]) + "-" + Hex(bytes[6..8]) + "-" + Hex(bytes[8..10]) + "-" + Hex(bytes[10..])
  }

  /** The text written after i bytes. */
  function TextUpTo(bytes: seq<byte>, i: nat): (s: string)
    requires i <= |bytes| <= BYTES
    ensures |s| == Offset(i)
  {
    if i == 0 then "" else
      TextUpTo(bytes, i - 1) + (if DashBefore(i - 1) then "-" else "") + HexPair(bytes[i - 1])
  }

  lemma {:induction false} TextUpToGroup(bytes: seq<byte>, from: nat, i: nat)
    requires from <= i <= |bytes| <= BYTES
    requires forall k :: from < k < i ==> !DashBefore(k)
    ensures TextUpTo(bytes, i)
            == TextUpTo(bytes, from) + (if from < i && DashBefore(from) then "-" else "") + Hex(bytes[from..i])
  {
    hide HexPair, Offset;
    var group := bytes[from..i];
    if from < i {
      var k := i - 1;
      assert group[..|group| - 1] == bytes[from..k] && group[|group| - 1] == bytes[k];
      TextUpToGroup(bytes, from, k);
      if from == k {
        assert Hex(bytes[from..k]) == "";
        assert Hex(group) == HexPair(bytes[k]);
      } else {
        assert !DashBefore(k);
        assert TextUpTo(bytes, i) == TextUpTo(bytes, k) + HexPair(bytes[k]);
      }
    }
  }

  lemma StartOfText(bytes: seq<byte>)
    requires |bytes| <= BYTES
    ensures TextUpTo(bytes, 0) == ""
  {
  }

  /** What the byte loop writes is the five-group form. */
  lemma WholeText(bytes: seq<byte>)
    requires |bytes| == BYTES
    ensures TextUpTo(bytes, BYTES) == TextForm(bytes)
    ensures |TextForm(bytes)| == TEXT_LENGTH
  {
    hide TextUpTo, Hex;
    StartOfText(bytes);
    TextUpToGroup(bytes, 0, 4);
    TextUpToGroup(bytes, 4, 6);
    TextUpToGroup(bytes, 6, 8);
    TextUpToGroup(bytes, 8, 10);
    TextUpToGroup(bytes, 10, 16);
    assert bytes[0..4] == bytes[..4] && bytes[10..16] == bytes[10..];
  }

  /** The loop body of uuid_unparse. */
  method PutByte(text: array<char>, at: nat, b: byte, dash: bool) returns (j: nat)
    requires at + 3 <= text.Length
    modifies text
    ensures j == at + 2 + if dash then 1 else 0
    ensures text[..j] == old(text[..at]) + (if dash then "-" else "") + HexPair(b)
    ensures text[j..] == old(text[..])[j..]
  {
    j := at;
    if dash {
      text[j] := '-';
      j := j + 1;
    }
    text[j] := HexDigit(b / 16);
    j := j + 1;
    text[j] := HexDigit(b % 16);
    j := j + 1;
  }

  /** uuid_unparse. */
  method Unparse(uuid: array<byte>, text: array<char>)
    requires uuid.Length == BYTES && text.Length > TEXT_LENGTH
    modifies text
    ensures text[..TEXT_LENGTH] == TextForm(uuid[..])
    ensures text[TEXT_LENGTH] == '\0'
    ensures text[TEXT_LENGTH + 1..] == old(text[TEXT_LENGTH + 1..])
  {
    hide TextForm, HexPair;
    WholeText(uuid[..]);
    ghost var before := text[..];
    var j := 0;
    for i := 0 to BYTES
      invariant j == Offset(i)
      invariant text[..j] == TextUpTo(uuid[..], i)
      invariant text[j..] == before[j..]
    {
      ghost var at := j;
      ghost var mid := text[..];
      j := PutByte(text, j, uuid[i], i == 4 || i == 6 || i == 8 || i == 10);
      assert mid[j..] == mid[at..][j - at..] && before[j..] == before[at..][j - at..];
    }
    text[j] := '\0';
    assert text[j + 1..] == before[j..][1..];
  }

  // ----- reading

  /** Byte k of a text: strtoul on its two characters, cut down to a byte. */
  function ByteAt(text: string, k: nat): byte
    requires k < BYTES && Offset(k + 1) <= |text|
  {
    var p := Offset(k + 1) - 2;
    StrToULL(text[p..p + 2], 16).0 % 256
  }

  /** The positions where the parser insists on a dash. */
  predicate DashesInPlace(text: string)
    requires |text| >= TEXT_LENGTH
  {
    text[8] == '-' && text[13] == '-' && text[18] == '-' && text[23] == '-'
  }

  /** The first n bytes of a text. */
  function ParsedUpTo(text: string, n: nat): (bytes: seq<byte>)
    requires n <= BYTES && Offset(n) <= |text|
    ensures |bytes| == n
  {
    seq(n, k requires 0 <= k < n => ByteAt(text, k))
  }

  function Parsed(text: string): (bytes: seq<byte>)
    requires |text| >= TEXT_LENGTH
    ensures |bytes| == BYTES
  {
    ParsedUpTo(text, BYTES)
  }

  /** The text position of byte k tells whether the parser expects a dash there. */
  lemma DashPositions(k: nat)
    requires k < BYTES
    ensures Offset(k) in {8, 13, 18, 23} <==> DashBefore(k)
    ensures Offset(k + 1) == Offset(k) + 2 + if DashBefore(k) then 1 else 0
  {
  }

  // ----- where reading stops

  /** Where there is no dash at p, the first time that one is missing. */
  predicate BreaksOffAt(text: string, p: nat) {
    && p in {8, 13, 18, 23} && p < |text| && text[p] != '-'
    && forall q :: q in {8, 13, 18, 23} && q < p ==> text[q] == '-'
  }

  /** From byte j on, the loop looks at nothing behind the end of the text. */
  predicate StaysInside(text: string, j: nat)
    requires j <= BYTES
    decreases BYTES - j
  {
    if j == BYTES then true
    else if DashBefore(j) && Offset(j) >= |text| then false
    else if DashBefore(j) && text[Offset(j)] != '-' then true
    else Offset(j + 1) <= |text| && StaysInside(text, j + 1)
  }

  /** Byte n is the first one that lacks the dash before it. */
  predicate StopsBefore(text: string, n: nat) {
    && n < BYTES && DashBefore(n) && Offset(n) < |text| && text[Offset(n)] != '-'
    && forall m :: 0 <= m < n && DashBefore(m) ==> text[Offset(m)] == '-'
  }

  /** The bytes with a dash before them, by their positions. */
  lemma StopPositions(text: string)
    ensures (exists n: nat :: StopsBefore(text, n)) <==> exists p :: BreaksOffAt(text, p)
  {
    assert Offset(4) == 8 && Offset(6) == 13 && Offset(8) == 18 && Offset(10) == 23;
    if n: nat :| StopsBefore(text, n) {
      assert DashBefore(4) && DashBefore(6) && DashBefore(8) && DashBefore(10);
      assert BreaksOffAt(text, Offset(n));
    }
    if p :| BreaksOffAt(text, p) {
      var n := if p == 8 then 4 else if p == 13 then 6 else if p == 18 then 8 else 10;
      assert StopsBefore(text, n);
    }
  }

  /** Before byte j, all dashes are in place. */
  predicate DashesUpTo(text: string, j: nat) {
    j <= BYTES && forall m :: 0 <= m < j && DashBefore(m) ==> Offset(m) < |text| && text[Offset(m)] == '-'
  }

  lemma {:induction false} InsideFrom(text: string, j: nat)
    requires DashesUpTo(text, j)
    ensures StaysInside(text, j) <==> j == BYTES || |text| >= TEXT_LENGTH || exists n: nat :: StopsBefore(text, n)
    decreases BYTES - j
  {
    if j < BYTES {
      DashPositions(j);
      OffsetsInside(j);
      if DashBefore(j) && Offset(j) < |text| && text[Offset(j)] != '-' {
        assert StopsBefore(text, j);
      } else if Offset(j + 1) <= |text| {
        InsideFrom(text, j + 1);
      } else {
        NoLaterStop(text, j);
      }
    }
  }

  lemma OffsetsInside(j: nat)
    requires j < BYTES
    ensures Offset(j) < Offset(j + 1) <= TEXT_LENGTH
    ensures j + 1 == BYTES ==> Offset(j + 1) == TEXT_LENGTH
    ensures forall n :: j < n < BYTES ==> Offset(j + 1) <= Offset(n)
  {
  }

  lemma NoLaterStop(text: string, j: nat)
    requires DashesUpTo(text, j) && j < BYTES && Offset(j + 1) > |text|
    requires DashBefore(j) && Offset(j) < |text| ==> text[Offset(j)] == '-'
    ensures !StaysInside(text, j) && !exists n: nat :: StopsBefore(text, n)
  {
    OffsetsInside(j);
  }

  /** uuid_parse gets a text and the NUL behind it, and looks at nothing else, exactly when these
      are 36 characters or more, or a dash is missing before the text ends. */
  lemma ReadsOnlyTheText(text: string)
    ensures StaysInside(text, 0) <==> |text| >= TEXT_LENGTH || exists p :: BreaksOffAt(text, p)
  {
    InsideFrom(text, 0);
    StopPositions(text);
  }

  /** Of the shorter texts the empty one and `1234` are read beyond their end; eight characters
      are not, for there the NUL is no dash. */
  lemma ShortTexts()
    ensures !StaysInside("\0", 0) && !StaysInside("1234\0", 0) && StaysInside("12345678\0", 0)
  {
    ReadsOnlyTheText("\0");
    ReadsOnlyTheText("1234\0");
    ReadsOnlyTheText("12345678\0");
    assert BreaksOffAt("12345678\0", 8);
  }

  /** The first j bytes are read, with the dashes before them. */
  ghost predicate ReadTo(text: string, bytes: seq<byte>, before: seq<byte>, j: nat) {
    && |bytes| == |before| == BYTES && j <= BYTES && Offset(j) <= |text|
    && bytes == ParsedUpTo(text, j) + before[j..]
    && DashesUpTo(text, j)
  }

  lemma ReadNothing(text: string, before: seq<byte>)
    requires |before| == BYTES
    ensures ReadTo(text, before, before, 0)
  {
    hide ByteAt;
  }

  lemma ReadOne(text: string, bytes: seq<byte>, before: seq<byte>, j: nat)
    requires ReadTo(text, bytes, before, j) && j < BYTES && Offset(j + 1) <= |text|
    requires DashBefore(j) ==> Offset(j) < |text| && text[Offset(j)] == '-'
    ensures ReadTo(text, bytes[j := ByteAt(text, j)], before, j + 1)
  {
    hide ByteAt, DashBefore, Offset;
  }

  lemma ReadAll(text: string, bytes: seq<byte>, before: seq<byte>)
    requires ReadTo(text, bytes, before, BYTES)
    ensures |text| >= TEXT_LENGTH && DashesInPlace(text) && bytes == Parsed(text)
  {
    hide ByteAt;
    assert DashBefore(4) && DashBefore(6) && DashBefore(8) && DashBefore(10);
  }

  lemma ReadStopped(text: string, bytes: seq<byte>, before: seq<byte>, j: nat)
    requires ReadTo(text, bytes, before, j) && j < BYTES
    requires DashBefore(j) && Offset(j) < |text| && text[Offset(j)] != '-'
    ensures |text| >= TEXT_LENGTH ==> !DashesInPlace(text)
    ensures StopsBefore(text, j) && bytes == ParsedUpTo(text, j) + before[j..]
  {
    hide ByteAt, ParsedUpTo;
    DashPositions(j);
  }

  lemma PlaceOfByte(text: string, j: nat)
    requires j < BYTES
    ensures var i := if DashBefore(j) then Offset(j) + 1 else Offset(j);
            && i + 2 == Offset(j + 1) <= TEXT_LENGTH
            && (i + 2 <= |text| ==> ByteAt(text, j) == StrToULL([text[i], text[i + 1]], 16).0 % 256)
  {
    hide StrToULL;
    DashPositions(j);
    var i := if DashBefore(j) then Offset(j) + 1 else Offset(j);
    assert i + 2 <= |text| ==> text[i..i + 2] == [text[i], text[i + 1]];
  }

  /** One round stays inside, and so does the rest. */
  lemma RoundStaysInside(text: string, j: nat)
    requires j < BYTES && StaysInside(text, j)
    ensures DashBefore(j) ==> Offset(j) < |text|
    ensures !(DashBefore(j) && text[Offset(j)] != '-') ==> Offset(j + 1) <= |text| && StaysInside(text, j + 1)
  {
  }

  /** uuid_parse, of a text and the NUL behind it. At the first place where a dash is missing it
      stops, and the bytes read so far stay. */
  method Parse(text: string, uuid: array<byte>)
    requires |text| >= TEXT_LENGTH || exists p :: BreaksOffAt(text, p)
    requires uuid.Length == BYTES
    modifies uuid
    ensures var whole := |text| >= TEXT_LENGTH && DashesInPlace(text);
            && (whole ==> uuid[..] == Parsed(text))
            && (!whole ==> exists n: nat :: StopsBefore(text, n) && uuid[..] == ParsedUpTo(text, n) + old(uuid[n..]))
  {
    hide StrToULL, ByteAt, Offset, Parsed, ParsedUpTo, DashBefore, ReadTo, DashesInPlace, StopsBefore, StaysInside;
    ghost var before := uuid[..];
    ReadNothing(text, before);
    FirstPlaces();
    ReadsOnlyTheText(text);
    var j := 0;
    var i := 0;
    while i < TEXT_LENGTH
      invariant 0 <= j <= BYTES && i == Offset(j) <= TEXT_LENGTH
      invariant i == TEXT_LENGTH <==> j == BYTES
      invariant StaysInside(text, j)
      invariant ReadTo(text, uuid[..], before, j)
    {
      DashPositions(j);
      PlaceOfByte(text, j);
      RoundStaysInside(text, j);
      if i == 8 || i == 13 || i == 18 || i == 23 {
        if text[i] == '-' {
          i := i + 1;
        } else {
          ReadStopped(text, uuid[..], before, j);
          return;
        }
      }
      var digit := [text[i], text[i + 1]];
      i := i + 2;
      ReadOne(text, uuid[..], before, j);
      uuid[j] := StrToULL(digit, 16).0 % 256;
      LastPlace(j + 1);
      j := j + 1;
    }
    ReadAll(text, uuid[..], before);
  }

  lemma FirstPlaces()
    ensures Offset(0) == 0
  {
  }

  lemma LastPlace(j: nat)
    requires j <= BYTES
    ensures Offset(j) <= TEXT_LENGTH && (Offset(j) == TEXT_LENGTH <==> j == BYTES)
  {
  }

  // ----- round trips

  /** Two hexadecimal digits stand for a byte. */
  lemma PairValue(c: char, d: char)
    requires IsDigit(c, 16) && IsDigit(d, 16)
    ensures StrToULL([c, d], 16).0 == 16 * DigitValue(c) + DigitValue(d) < 256
  {
    var s := [c, d];
    ScanDigits(s, "", 16);
    assert s + "" == s;
    assert s[..1] == [c] && [c][..0] == "";
    assert DigitsValue([c], 16) == DigitValue(c);
  }

  /** Whatever two characters a byte is read from: the longest number at their front counts, and
      without one the byte is 0. Nothing is refused. */
  lemma AnyByte(text: string, k: nat)
    requires k < BYTES && Offset(k + 1) <= |text|
    ensures var (c, d) := (text[Offset(k + 1) - 2], text[Offset(k + 1) - 1]);
            ByteAt(text, k) ==
            if IsDigit(c, 16) then if IsDigit(d, 16) then 16 * DigitValue(c) + DigitValue(d) else DigitValue(c)
            else if !IsDigit(d, 16) then 0
            else if c == '-' then (256 - DigitValue(d)) % 256
            else if c == '+' || IsSpace(c) then DigitValue(d)
            else 0
  {
    hide StrToULL, DigitValue;
    var p := Offset(k + 1) - 2;
    assert text[p..p + 2] == [text[p], text[p + 1]];
    AnyPair(text[p], text[p + 1]);
  }

  lemma AnyPair(c: char, d: char)
    ensures StrToULL([c, d], 16).0 % 256 ==
            if IsDigit(c, 16) then if IsDigit(d, 16) then 16 * DigitValue(c) + DigitValue(d) else DigitValue(c)
            else if !IsDigit(d, 16) then 0
            else if c == '-' then (256 - DigitValue(d)) % 256
            else if c == '+' || IsSpace(c) then DigitValue(d)
            else 0
  {
    hide ScanUnsigned, DigitValue, SkipSpace, StrToULL;
    if IsDigit(c, 16) && IsDigit(d, 16) {
      PairValue(c, d);
    } else if IsDigit(c, 16) {
      SingleDigit(c, [d]);
      assert [c] + [d] == [c, d];
      NoSpaceOrSign(c, d);
      ReadsFromScan([c, d]);
    } else {
      SingleDigit(d, "");
      assert [d] + "" == [d];
      NoDigitFirst(c, d);
      ReadsFromScan([c, d]);
    }
  }

  lemma ReadsFromScan(s: string)
    ensures StrToULL(s, 16).0 % 256 ==
            match ScanNumber(s, 16)
            case NoNumber => 0
            case Number(negative, m, _) =>
              if m >= WORD64 then 255 else if negative then (WORD64 - m) % WORD64 % 256 else m % 256
  {
    hide ScanNumber;
  }

  lemma NoSpaceOrSign(c: char, d: char)
    requires IsDigit(c, 16)
    ensures ScanNumber([c, d], 16) == ScanUnsigned(false, [c, d], 16)
  {
    hide ScanUnsigned;
    assert SkipSpace([c, d]) == [c, d];
  }

  lemma NoDigitFirst(c: char, d: char)
    requires !IsDigit(c, 16)
    ensures c in {'-', '+'} ==> ScanNumber([c, d], 16) == ScanUnsigned(c == '-', [d], 16)
    ensures IsSpace(c) && IsDigit(d, 16) ==> ScanNumber([c, d], 16) == ScanUnsigned(false, [d], 16)
    ensures !(c in {'-', '+'} || (IsSpace(c) && IsDigit(d, 16))) ==> ScanNumber([c, d], 16) == NoNumber
  {
    var s := [c, d];
    assert s[1..] == [d] && [d][1..] == "";
    assert SkipSpace("") == "" && DigitSpan("", 16) == 0;
    assert SkipSpace([d]) == if IsSpace(d) then "" else [d];
    assert !IsDigit(d, 16) ==> DigitSpan([d], 16) == 0;
    assert DigitSpan(s, 16) == 0;
    assert SkipSpace(s) == if IsSpace(c) then SkipSpace([d]) else s;
  }

  lemma SingleDigit(d: char, more: string)
    requires |more| <= 1 && (more == "" || !IsDigit(more[0], 16))
    ensures var s := [d] + more;
            forall negative :: ScanUnsigned(negative, s, 16)
                               == if IsDigit(d, 16) then Number(negative, DigitValue(d), more) else NoNumber
  {
    hide DigitValue;
    var s := [d] + more;
    assert s[1..] == more && DigitSpan(more, 16) == 0;
    if IsDigit(d, 16) {
      assert s[..1] == [d] && [d][..0] == "";
      assert DigitsValue([d], 16) == DigitValue(d);
    }
  }

  lemma DigitOfDigit(v: nat)
    requires v < 16
    ensures DigitValue(HexDigit(v)) == v
  {
  }

  /** Byte k of a text is at its place, and so are the dashes. */
  lemma {:induction false} PlacesInText(bytes: seq<byte>, i: nat, k: nat)
    requires k < i <= |bytes| <= BYTES
    ensures TextUpTo(bytes, i)[Offset(k + 1) - 2..Offset(k + 1)] == HexPair(bytes[k])
    ensures DashBefore(k) ==> TextUpTo(bytes, i)[Offset(k)] == '-'
  {
    hide HexPair, Dashes, DashBefore;
    var shorter := TextUpTo(bytes, i - 1);
    var dash := if DashBefore(i - 1) then "-" else "";
    var pair := HexPair(bytes[i - 1]);
    if k < i - 1 {
      PlacesInText(bytes, i - 1, k);
      Grows(k, i - 1);
      InPrefix(shorter, dash + pair, Offset(k), Offset(k + 1));
      assert shorter + dash + pair == shorter + (dash + pair);
    } else {
      DashPositions(k);
      AtTheEnd(shorter, dash, pair);
    }
  }

  lemma Grows(k: nat, i: nat)
    requires k < i <= BYTES
    ensures Offset(k) + 2 <= Offset(k + 1) <= Offset(i)
  {
  }

  lemma InPrefix(s: string, more: string, p: nat, q: nat)
    requires p + 2 <= q <= |s|
    ensures (s + more)[p] == s[p] && (s + more)[q - 2..q] == s[q - 2..q]
  {
  }

  lemma AtTheEnd(s: string, dash: string, pair: string)
    requires |pair| == 2
    ensures (s + dash + pair)[|s| + |dash|..|s| + |dash| + 2] == pair
    ensures dash != "" ==> (s + dash + pair)[|s|] == dash[0]
  {
  }

  lemma ByteOfText(bytes: seq<byte>, k: nat)
    requires |bytes| == BYTES && k < BYTES
    ensures Offset(k + 1) <= Offset(BYTES) && ByteAt(TextUpTo(bytes, BYTES), k) == bytes[k]
  {
    hide TextUpTo, StrToULL, HexPair;
    PlacesInText(bytes, BYTES, k);
    PairOfByte(bytes[k]);
  }

  lemma DashesInText(bytes: seq<byte>)
    requires |bytes| == BYTES
    ensures DashesInPlace(TextUpTo(bytes, BYTES))
  {
    hide TextUpTo, HexPair;
    PlacesInText(bytes, BYTES, 4);
    PlacesInText(bytes, BYTES, 6);
    PlacesInText(bytes, BYTES, 8);
    PlacesInText(bytes, BYTES, 10);
  }

  /** Parsing the text of any sixteen bytes gives back the bytes. */
  lemma ParseOfText(bytes: seq<byte>)
    requires |bytes| == BYTES
    ensures |TextForm(bytes)| == TEXT_LENGTH && DashesInPlace(TextForm(bytes))
    ensures Parsed(TextForm(bytes)) == bytes
  {
    hide TextForm, TextUpTo, ByteAt, DashesInPlace;
    WholeText(bytes);
    DashesInText(bytes);
    forall k | 0 <= k < BYTES ensures ByteAt(TextForm(bytes), k) == bytes[k] {
      ByteOfText(bytes, k);
    }
  }

  lemma PairOfByte(b: byte)
    ensures StrToULL(HexPair(b), 16).0 == b
  {
    hide StrToULL, DigitValue, HexDigit;
    DigitOfDigit(b / 16);
    DigitOfDigit(b % 16);
    PairValue(HexDigit(b / 16), HexDigit(b % 16));
  }

  function LowerCase(c: char): char {
    if 'A' <= c <= 'F' then c - 'A' + 'a' else c
  }

  function Lower(text: string): (r: string)
    ensures |r| == |text|
  {
    seq(|text|, i requires 0 <= i < |text| => LowerCase(text[i]))
  }

  /** A UUID as it should be written: dashes in their places and digits everywhere else. */
  predicate WellFormed(text: string) {
    && |text| == TEXT_LENGTH && DashesInPlace(text)
    && forall i :: 0 <= i < TEXT_LENGTH && i !in {8, 13, 18, 23} ==> IsDigit(text[i], 16)
  }

  lemma LowerDigit(c: char)
    requires IsDigit(c, 16)
    ensures HexDigit(DigitValue(c)) == LowerCase(c)
  {
  }

  lemma PairOfText(c: char, d: char)
    requires IsDigit(c, 16) && IsDigit(d, 16)
    ensures HexPair(StrToULL([c, d], 16).0 % 256) == [LowerCase(c), LowerCase(d)]
  {
    hide StrToULL, DigitValue, LowerCase, HexDigit;
    PairValue(c, d);
    LowerDigit(c);
    LowerDigit(d);
  }

  lemma LowerSegment(text: string, k: nat)
    requires WellFormed(text) && k < BYTES
    ensures Lower(text)[Offset(k)..Offset(k + 1)]
            == (if DashBefore(k) then "-" else "") + HexPair(ByteAt(text, k))
  {
    hide StrToULL, HexPair, IsDigit, WellFormed, Offset, DashBefore;
    SegmentPlaces(text, k);
    var (a, b) := (Offset(k), Offset(k + 1));
    assert text[b - 2..b] == [text[b - 2], text[b - 1]];
    PairOfText(text[b - 2], text[b - 1]);
    LowerStretch(text, a, b);
  }

  /** Two characters of the lower-case text, and the one before them. */
  lemma LowerStretch(text: string, a: nat, b: nat)
    requires a <= b - 2 <= a + 1 && b <= |text|
    ensures var (c, d) := (LowerCase(text[b - 2]), LowerCase(text[b - 1]));
            Lower(text)[a..b] == (if a == b - 2 then "" else [LowerCase(text[a])]) + [c, d]
  {
    hide LowerCase;
    var stretch := Lower(text)[a..b];
    assert stretch[|stretch| - 2] == LowerCase(text[b - 2]) && stretch[|stretch| - 1] == LowerCase(text[b - 1]);
    assert a < b - 2 ==> stretch[0] == LowerCase(text[a]);
  }

  lemma SegmentPlaces(text: string, k: nat)
    requires WellFormed(text) && k < BYTES
    ensures |text| == TEXT_LENGTH && Offset(k + 1) <= TEXT_LENGTH
    ensures Offset(k + 1) == Offset(k) + if DashBefore(k) then 3 else 2
    ensures IsDigit(text[Offset(k + 1) - 2], 16) && IsDigit(text[Offset(k + 1) - 1], 16)
    ensures DashBefore(k) ==> LowerCase(text[Offset(k)]) == '-'
  {
    DashPositions(k);
  }

  lemma {:induction false} TextOfParsedUpTo(text: string, i: nat)
    requires WellFormed(text) && i <= BYTES
    ensures TextUpTo(Parsed(text), i) == Lower(text)[..Offset(i)]
  {
    hide ByteAt, HexPair, Lower;
    if i > 0 {
      TextOfParsedUpTo(text, i - 1);
      LowerSegment(text, i - 1);
      var t := Lower(text);
      assert t[..Offset(i)] == t[..Offset(i - 1)] + t[Offset(i - 1)..Offset(i)];
    }
  }

  /** Printing what was parsed from a well-formed UUID gives its lower-case form. */
  lemma TextOfParsed(text: string)
    requires WellFormed(text)
    ensures TextForm(Parsed(text)) == Lower(text)
  {
    WholeText(Parsed(text));
    TextOfParsedUpTo(text, BYTES);
  }
}
