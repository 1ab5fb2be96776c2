/** The upper-case hexadecimal text of a byte string, IntToString. */
module HexString {
  import opened Machine
  import opened Numbers

  const UPPER_DIGITS: string := "0123456789ABCDEF"

  /** Digit p of the text: the high half of a byte comes first. */
  function Nibble(bytes: seq<byte>, p: nat): nat
    requires p < 2 * |bytes|
  {
    if p % 2 == 0 then bytes[p / 2] / 16 else bytes[p / 2] % 16
  }

  function UpperDigit(v: nat): byte
    requires v < 16
  {
    UPPER_DIGITS[v] as int
  }

  /** The text as ASCII codes. */
  function UpperHex(bytes: seq<byte>): (text: seq<byte>)
    ensures |text| == 2 * |bytes|
  {
    seq(2 * |bytes|, p requires 0 <= p < 2 * |bytes| => UpperDigit(Nibble(bytes, p)))
  }

  /** The index of the loops is a byte, so it starts again from 0 after 255. */
  function NextIndex(index: byte): byte {
    (index + 1) % 256
  }

  function IndexAfter(steps: nat): byte {
    if steps == 0 then 0 else NextIndex(IndexAfter(steps - 1))
  }

  lemma {:induction false} IndexWraps(steps: nat)
    ensures IndexAfter(steps) == steps % 256
  {
    hide NextIndex;
    if steps > 0 {
      IndexWraps(steps - 1);
      NextOfRemainder(steps - 1);
    }
  }

  lemma NextOfRemainder(n: nat)
    ensures NextIndex(n % 256) == (n + 1) % 256
  {
  }

  /** The first pass ends for every size; the second one, over twice as many digits, comes to
      an end if and only if the size is at most 127. */
  lemma BothPassesEnd(size: byte)
    ensures exists k :: IndexAfter(k) >= size
    ensures (exists k :: IndexAfter(k) >= 2 * size) <==> size <= 127
  {
    hide IndexAfter;
    IndexWraps(255);
    assert IndexAfter(255) >= size;
    if size <= 127 {
      assert IndexAfter(255) >= 2 * size;
    } else {
      forall k ensures IndexAfter(k) < 2 * size {
        IndexWraps(k);
      }
    }
  }

  /** The first half bytes are spread over the text. */
  ghost predicate Spread(text: seq<byte>, bytes: seq<byte>, done: nat) {
    done <= 2 * |bytes| <= |text| && forall p :: 0 <= p < done ==> text[p] == Nibble(bytes, p)
  }

  /** All half bytes are spread, and the first ones turned into digits. */
  ghost predicate Written(text: seq<byte>, bytes: seq<byte>, done: nat) {
    && done <= 2 * |bytes| <= |text|
    && forall p :: 0 <= p < 2 * |bytes| ==>
         text[p] == if p < done then UpperDigit(Nibble(bytes, p)) else Nibble(bytes, p)
  }

  lemma SpreadByte(text: seq<byte>, bytes: seq<byte>, i: nat)
    requires Spread(text, bytes, 2 * i) && i < |bytes|
    ensures Spread(text[2 * i := bytes[i] / 16][2 * i + 1 := bytes[i] % 16], bytes, 2 * i + 2)
  {
    assert Nibble(bytes, 2 * i) == bytes[i] / 16 && Nibble(bytes, 2 * i + 1) == bytes[i] % 16;
  }

  lemma WriteDigit(text: seq<byte>, bytes: seq<byte>, k: nat)
    requires Written(text, bytes, k) && k < 2 * |bytes|
    ensures text[k] < 16 && Written(text[k := UpperDigit(text[k])], bytes, k + 1)
  {
    hide UpperDigit;
  }

  lemma SpreadThenWritten(text: seq<byte>, bytes: seq<byte>)
    requires Spread(text, bytes, 2 * |bytes|)
    ensures Written(text, bytes, 0)
  {
  }

  lemma WholeTextWritten(text: seq<byte>, bytes: seq<byte>)
    requires Written(text, bytes, 2 * |bytes|)
    ensures text[..2 * |bytes|] == UpperHex(bytes)
  {
    hide UpperDigit;
  }

  /** The first pass spreads the half bytes, the second turns each into a digit in place. */
  method IntToString(text: array<byte>, integer: array<byte>, size: byte)
    requires size <= 127
    requires text != integer && size <= integer.Length && 2 * size < text.Length
    modifies text
    ensures text[..2 * size] == UpperHex(integer[..size])
    ensures text[2 * size] == 0
    ensures text[2 * size + 1..] == old(text[2 * size + 1..])
  {
    hide UpperDigit, Nibble, UpperHex, Spread, Written;
    ghost var bytes := integer[..size];
    ghost var tail := text[2 * size + 1..];
    var index: byte := 0;
    NothingSpread(text[..], bytes);
    while index < size
      invariant 0 <= index <= size
      invariant Spread(text[..], bytes, 2 * index)
      invariant text[2 * size + 1..] == tail
      decreases size - index
    {
      SpreadByte(text[..], bytes, index);
      text[index * 2] := integer[index] / 16;
      text[index * 2 + 1] := integer[index] % 16;
      index := NextIndex(index);
    }
    SpreadThenWritten(text[..], bytes);
    index := 0;
    while index < size * 2
      invariant 0 <= index <= 2 * size
      invariant Written(text[..], bytes, index)
      invariant text[2 * size + 1..] == tail
      decreases 2 * size - index
    {
      WriteDigit(text[..], bytes, index);
      DigitCode(text[index]);
      if text[index] >= 0x0A {
        text[index] := text[index] + 0x37;
      } else {
        text[index] := text[index] + 0x30;
      }
      index := NextIndex(index);
    }
    WholeTextWritten(text[..], bytes);
    assert text[..][..2 * size] == text[..2 * size];
    text[size * 2] := 0;
  }

  lemma NothingSpread(text: seq<byte>, bytes: seq<byte>)
    requires 2 * |bytes| <= |text|
    ensures Spread(text, bytes, 0)
  {
  }

  lemma DigitCode(v: nat)
    requires v < 16
    ensures UpperDigit(v) == if v >= 0x0A then v + 0x37 else v + 0x30
  {
  }

  // ----- reading it back

  predicate IsUpperHex(text: seq<byte>) {
    && |text| % 2 == 0
    && forall p :: 0 <= p < |text| ==>
         '0' as int <= text[p] <= '9' as int || 'A' as int <= text[p] <= 'F' as int
  }

  function Decode(text: seq<byte>): (bytes: seq<byte>)
    requires IsUpperHex(text)
  {
    seq(|text| / 2, i requires 0 <= i < |text| / 2 =>
      DigitValue(text[2 * i] as char) * 16 + DigitValue(text[2 * i + 1] as char))
  }

  lemma UpperDigitValue(v: nat)
    requires v < 16
    ensures '0' as int <= UpperDigit(v) <= '9' as int || 'A' as int <= UpperDigit(v) <= 'F' as int
    ensures DigitValue(UpperDigit(v) as char) == v
  {
  }

  /** Decoding the text of any bytes gives back the bytes. */
  lemma DecodeOfText(bytes: seq<byte>)
    ensures IsUpperHex(UpperHex(bytes)) && Decode(UpperHex(bytes)) == bytes
  {
    hide UpperDigit, DigitValue;
    var text := UpperHex(bytes);
    forall p | 0 <= p < |text|
      ensures '0' as int <= text[p] <= '9' as int || 'A' as int <= text[p] <= 'F' as int
      ensures DigitValue(text[p] as char) == Nibble(bytes, p)
    {
      UpperDigitValue(Nibble(bytes, p));
    }
    forall i | 0 <= i < |bytes| ensures Decode(text)[i] == bytes[i] {
      assert Nibble(bytes, 2 * i) == bytes[i] / 16 && Nibble(bytes, 2 * i + 1) == bytes[i] % 16;
    }
  }

  lemma DigitOfValue(b: byte)
    requires '0' as int <= b <= '9' as int || 'A' as int <= b <= 'F' as int
    ensures DigitValue(b as char) < 16 && UpperDigit(DigitValue(b as char)) == b
  {
  }

  /** Every text of upper-case digits is the text of the bytes that it decodes to. */
  lemma TextOfDecoded(text: seq<byte>)
    requires IsUpperHex(text)
    ensures UpperHex(Decode(text)) == text
  {
    hide UpperDigit, DigitValue;
    var bytes := Decode(text);
    forall i | 0 <= i < |bytes|
      ensures UpperDigit(bytes[i] / 16) == text[2 * i] && UpperDigit(bytes[i] % 16) == text[2 * i + 1]
    {
      DigitOfValue(text[2 * i]);
      DigitOfValue(text[2 * i + 1]);
    }
    forall p | 0 <= p < |text| ensures UpperHex(bytes)[p] == text[p] {
      assert p == 2 * (p / 2) || p == 2 * (p / 2) + 1;
    }
  }
}
