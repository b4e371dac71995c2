/** Texts as the host writes and reads them: characters as bytes, and what
    hexadecimal digits stand for, told by their place in the row of digits. */
module Texts {
  import opened Machine

  /** The code of a character. */
  function Code(c: char): (b: byte)
    ensures c as int < 256 ==> b as int == c as int
  {
    ByteOf(c as int % 256)
  }

  /** The bytes of a text. */
  function Ascii(text: string): (bytes: seq<byte>)
    ensures |bytes| == |text|
  {
    seq(|text|, i requires 0 <= i < |text| => Code(text[i]))
  }

  const UPPER_DIGITS := "0123456789ABCDEF"
  const LOWER_DIGITS := "0123456789abcdef"

  /** `c` is the `k`-th digit, in either case. */
  predicate IsDigit(c: byte, k: nat)
    requires k < 16
  {
    c == Code(UPPER_DIGITS[k]) || c == Code(LOWER_DIGITS[k])
  }

  /** Which digit `c` is, from the `k`-th on, or 0 if it is none. */
  function Position(c: byte, k: nat): (v: nat)
    requires k <= 16
    ensures v < 16
    decreases 16 - k
  {
    if k == 16 then 0 else if IsDigit(c, k) then k else Position(c, k + 1)
  }

  function DigitValue(c: byte): nat {
    Position(c, 0)
  }

  /** The number that digits denote. */
  function HexValue(digits: seq<byte>): nat {
    if digits == [] then 0
    else 16 * HexValue(digits[..|digits| - 1]) + DigitValue(digits[|digits| - 1])
  }

  /** Pairs of digits, in either case, that denote `data`. */
  predicate Denotes(text: seq<byte>, data: seq<byte>) {
    && |text| == 2 * |data|
    && forall k :: 0 <= k < |data| ==> DenotesByte(text[2 * k], text[2 * k + 1], data[k])
  }

  predicate DenotesByte(hi: byte, lo: byte, b: byte) {
    IsHexDigit(hi) && IsHexDigit(lo) && 16 * DigitValue(hi) + DigitValue(lo) == b as int
  }

  /** The codes of the digits. */
  function UpperCode(k: nat): byte
    requires k < 16
  {
    match k
    case 0 => 0x30 case 1 => 0x31 case 2 => 0x32 case 3 => 0x33
    case 4 => 0x34 case 5 => 0x35 case 6 => 0x36 case 7 => 0x37
    case 8 => 0x38 case 9 => 0x39 case 10 => 0x41 case 11 => 0x42
    case 12 => 0x43 case 13 => 0x44 case 14 => 0x45 case _ => 0x46
  }

  function LowerCode(k: nat): byte
    requires k < 16
  {
    match k
    case 10 => 0x61 case 11 => 0x62 case 12 => 0x63
    case 13 => 0x64 case 14 => 0x65 case 15 => 0x66
    case _ => UpperCode(k)
  }

  lemma DigitCodes(k: nat)
    requires k < 16
    ensures Code(UPPER_DIGITS[k]) == UpperCode(k) && Code(LOWER_DIGITS[k]) == LowerCode(k)
  {
    assert UPPER_DIGITS[k] as int == UpperCode(k) as int && LOWER_DIGITS[k] as int == LowerCode(k) as int;
    SameValue(Code(UPPER_DIGITS[k]), UpperCode(k));
    SameValue(Code(LOWER_DIGITS[k]), LowerCode(k));
  }

  predicate IsHexDigit(c: byte) {
    0x30 <= c <= 0x39 || 0x41 <= c <= 0x46 || 0x61 <= c <= 0x66
  }

  /** The digits are these characters and no others. */
  lemma HexDigitsAre(c: byte)
    ensures IsHexDigit(c) <==> exists k :: 0 <= k < 16 && IsDigit(c, k)
  {
    if k :| 0 <= k < 16 && IsDigit(c, k) {
      DigitCodes(k);
    }
    if IsHexDigit(c) {
      var k := WhichDigit(c);
    }
  }

  lemma WhichDigit(c: byte) returns (k: nat)
    requires IsHexDigit(c)
    ensures k < 16 && IsDigit(c, k) && (c == UpperCode(k) || c == LowerCode(k))
  {
    k := 0;
    while k < 15 && c != UpperCode(k) && c != LowerCode(k)
      invariant k < 16
      invariant forall j :: 0 <= j < k ==> c != UpperCode(j) && c != LowerCode(j)
    {
      k := k + 1;
    }
    DigitsEnd(c, k);
    DigitCodes(k);
  }

  lemma DigitsEnd(c: byte, k: nat)
    requires IsHexDigit(c) && k < 16 && (k == 15 || c == UpperCode(k) || c == LowerCode(k))
    requires forall j :: 0 <= j < k ==> c != UpperCode(j) && c != LowerCode(j)
    ensures c == UpperCode(k) || c == LowerCode(k)
  {
    if k == 15 {
      assert c != UpperCode(0) && c != UpperCode(1) && c != UpperCode(2) && c != UpperCode(3) && c != UpperCode(4);
      assert c != UpperCode(5) && c != UpperCode(6) && c != UpperCode(7) && c != UpperCode(8) && c != UpperCode(9);
      assert c != UpperCode(10) && c != UpperCode(11) && c != UpperCode(12) && c != UpperCode(13) && c != UpperCode(14);
      assert c != LowerCode(10) && c != LowerCode(11) && c != LowerCode(12) && c != LowerCode(13) && c != LowerCode(14);
    }
  }

  lemma CodeValues(k: nat)
    requires k < 16
    ensures UpperCode(k) as int == if k < 10 then 48 + k else 55 + k
    ensures LowerCode(k) as int == if k < 10 then 48 + k else 87 + k
  {
  }

  lemma CodesDiffer(j: nat, k: nat)
    requires j < k < 16
    ensures UpperCode(j) != UpperCode(k) && LowerCode(j) != LowerCode(k)
    ensures UpperCode(j) != LowerCode(k) && LowerCode(j) != UpperCode(k)
  {
    hide UpperCode, LowerCode;
    CodeValues(j);
    CodeValues(k);
  }

  /** No character is two digits. */
  lemma {:induction false} PositionIs(c: byte, k: nat, j: nat)
    requires j <= k < 16 && IsDigit(c, k)
    ensures Position(c, j) == k
    decreases 16 - j
  {
    hide UpperCode, LowerCode;
    if j < k {
      DigitCodes(j);
      DigitCodes(k);
      CodesDiffer(j, k);
      PositionIs(c, k, j + 1);
    }
  }

  lemma {:induction false} PositionOfOther(c: byte, j: nat)
    requires j <= 16 && !IsHexDigit(c)
    ensures Position(c, j) == 0
    decreases 16 - j
  {
    if j < 16 {
      HexDigitsAre(c);
      PositionOfOther(c, j + 1);
    }
  }
}
