/** Hexadecimal text: src/utils.c. */
module Hex {
  import opened Machine
  import opened Texts

  function HexNibble(c: byte): byte {
    if 0x30 <= c <= 0x39 then c - 0x30
    else if 0x41 <= c <= 0x46 then c - 0x41 + 10
    else if 0x61 <= c <= 0x66 then c - 0x61 + 10
    else 0
  }

  /** hex_to_char */
  function HexByte(hi: byte, lo: byte): byte {
    (HexNibble(hi) << 4) | HexNibble(lo)
  }

  function HexDigit(n: byte): byte
    requires n < 16
  {
    if n < 10 then n + 0x30 else n - 10 + 0x41
  }

  function HighDigit(b: byte): byte {
    HexDigit((b >> 4) & 0x0F)
  }

  function LowDigit(b: byte): byte {
    HexDigit(b & 0x0F)
  }

  lemma NibbleOfCode(k: nat)
    requires k < 16
    ensures HexNibble(UpperCode(k)) as int == k && HexNibble(LowerCode(k)) as int == k
  {
  }

  /** hex_nibble: a digit counts for its place among the digits, in either
      case; anything else counts for nothing. */
  lemma NibbleIsPlace(c: byte)
    ensures HexNibble(c) as int == DigitValue(c)
  {
    hide HexNibble, UpperCode, LowerCode;
    if IsHexDigit(c) {
      var k := WhichDigit(c);
      NibbleOfCode(k);
      PositionIs(c, k, 0);
    } else {
      NibbleOfOther(c);
      PositionOfOther(c, 0);
    }
  }

  lemma NibbleOfOther(c: byte)
    requires !IsHexDigit(c)
    ensures HexNibble(c) as int == 0
  {
  }

  lemma DigitIsPlace(n: byte, k: nat)
    requires n < 16 && n as int == k
    ensures k < 16 && HexDigit(n) == Code(UPPER_DIGITS[k])
  {
    DigitCodes(k);
    assert HexDigit(n) as int == UpperCode(k) as int;
    SameValue(HexDigit(n), UpperCode(k));
  }

  lemma DigitsOfByte(b: byte)
    ensures HexByte(HighDigit(b), LowDigit(b)) == b
    ensures IsHexDigit(HighDigit(b)) && IsHexDigit(LowDigit(b))
  {
  }

  /** The text `to_hex` makes of `data`. */
  function HexText(data: seq<byte>): (text: seq<byte>)
    ensures |text| == 2 * |data|
  {
    if data == [] then []
    else
      var n := |data| - 1;
      HexText(data[..n]) + [HighDigit(data[n]), LowDigit(data[n])]
  }

  /** The bytes `from_hex` makes of `n` pairs of digits from `at` on. */
  function HexData(text: seq<byte>, at: nat, n: nat): (data: seq<byte>)
    requires at + 2 * n <= |text|
    ensures |data| == n
  {
    if n == 0 then []
    else HexData(text, at, n - 1) + [HexByte(text[at + 2 * n - 2], text[at + 2 * n - 1])]
  }

  lemma SliceParts(text: seq<byte>, at: nat, x: seq<byte>, y: seq<byte>)
    requires at + |x| + |y| <= |text| && text[at..at + |x| + |y|] == x + y
    ensures text[at..at + |x|] == x && text[at + |x|..at + |x| + |y|] == y
  {
    var whole := text[at..at + |x| + |y|];
    assert text[at..at + |x|] == whole[..|x|];
    assert text[at + |x|..at + |x| + |y|] == whole[|x|..];
  }

  lemma SliceOfSlice(text: seq<byte>, at: nat, n: nat, i: nat, j: nat)
    requires at + n <= |text| && i <= j <= n
    ensures text[at..at + n][i..j] == text[at + i..at + j]
  {
    var x, y := text[at..at + n][i..j], text[at + i..at + j];
    assert forall k :: 0 <= k < |x| ==> x[k] == y[k];
  }

  /** from_hex: pairs of digits, in either case, yield the bytes they denote. */
  lemma {:induction false} HexDataIs(text: seq<byte>, at: nat, data: seq<byte>)
    requires at + 2 * |data| <= |text| && Denotes(text[at..at + 2 * |data|], data)
    ensures HexData(text, at, |data|) == data
  {
    hide DenotesByte, HexByte, Denotes;
    if data != [] {
      var n := |data| - 1;
      var all := text[at..at + 2 * |data|];
      DenotesButLast(all, data);
      SliceOfSlice(text, at, 2 * |data|, 0, 2 * n);
      HexDataIs(text, at, data[..n]);
      assert text[at + 2 * n] == all[2 * n] && text[at + 2 * n + 1] == all[2 * n + 1];
      PairIs(text[at + 2 * n], text[at + 2 * n + 1], data[n]);
    }
  }

  lemma DenotesButLast(text: seq<byte>, data: seq<byte>)
    requires Denotes(text, data) && data != []
    ensures var n := |data| - 1;
      |text| == 2 * n + 2 && Denotes(text[0..2 * n], data[..n]) && DenotesByte(text[2 * n], text[2 * n + 1], data[n])
  {
    hide DenotesByte;
    var n := |data| - 1;
    var rest := text[0..2 * n];
    assert forall k :: 0 <= k < n ==> rest[2 * k] == text[2 * k] && rest[2 * k + 1] == text[2 * k + 1];
  }

  lemma PairIs(hi: byte, lo: byte, b: byte)
    requires DenotesByte(hi, lo, b)
    ensures HexByte(hi, lo) == b
  {
    HexByteValue(hi, lo);
    SameValue(HexByte(hi, lo), b);
  }

  /** to_hex: the text denotes the data, in upper case. */
  lemma {:induction false} HexTextDenotes(data: seq<byte>)
    ensures Denotes(HexText(data), data)
  {
    hide DenotesByte, HighDigit, LowDigit;
    if data != [] {
      var n := |data| - 1;
      HexTextDenotes(data[..n]);
      DigitsDenote(data[n]);
      forall k | 0 <= k < |data|
        ensures DenotesByte(HexText(data)[2 * k], HexText(data)[2 * k + 1], data[k])
      {
      }
    }
  }

  lemma DigitsDenote(b: byte)
    ensures DenotesByte(HighDigit(b), LowDigit(b), b)
  {
    DigitsOfByte(b);
    HexByteValue(HighDigit(b), LowDigit(b));
  }

  /** to_hex writes capital letters: the digits at the two places of the byte. */
  lemma DigitsAreUpper(b: byte)
    ensures HighDigit(b) == Code(UPPER_DIGITS[b as int / 16]) && LowDigit(b) == Code(UPPER_DIGITS[b as int % 16])
  {
    NibblesAre(b);
    DigitIsPlace((b >> 4) & 0x0F, b as int / 16);
    DigitIsPlace(b & 0x0F, b as int % 16);
  }

  lemma NibblesAre(b: byte)
    ensures ((b >> 4) & 0x0F) as int == b as int / 16 && (b & 0x0F) as int == b as int % 16
  {
  }

  lemma HexRoundTrip(text: seq<byte>, at: nat, data: seq<byte>)
    requires at + 2 * |data| <= |text| && text[at..at + 2 * |data|] == HexText(data)
    ensures HexData(text, at, |data|) == data
  {
    HexTextDenotes(data);
    HexDataIs(text, at, data);
  }

  lemma {:induction false} HexTextIsDigits(data: seq<byte>)
    ensures forall k :: 0 <= k < 2 * |data| ==> IsHexDigit(HexText(data)[k])
  {
    if data != [] {
      var n := |data| - 1;
      HexTextIsDigits(data[..n]);
      DigitsOfByte(data[n]);
    }
  }

  // ---- numbers ----

  /** A number of at most four digits, padded on the left with zeros. */
  function FromHexStr(digits: seq<byte>): word
    requires |digits| <= 4
  {
    var b := seq(4 - |digits|, _ => 0x30) + digits;
    Word(HexByte(b[2], b[3]), HexByte(b[0], b[1]))
  }

  lemma NibblesOfByte(hi: byte, lo: byte)
    ensures HexByte(hi, lo) as int == 16 * HexNibble(hi) as int + HexNibble(lo) as int
  {
  }

  /** hex_to_char */
  lemma HexByteValue(hi: byte, lo: byte)
    ensures HexByte(hi, lo) as int == 16 * DigitValue(hi) + DigitValue(lo)
  {
    NibblesOfByte(hi, lo);
    NibbleIsPlace(hi);
    NibbleIsPlace(lo);
  }

  lemma FourDigits(d: seq<byte>)
    requires |d| == 4
    ensures HexValue(d) == 256 * HexByte(d[0], d[1]) as int + HexByte(d[2], d[3]) as int
  {
    hide DigitValue, HexByte;
    HexByteValue(d[0], d[1]);
    HexByteValue(d[2], d[3]);
    var d3, d2, d1 := d[..3], d[..2], d[..1];
    assert d3[..2] == d2 && d2[..1] == d1 && d1[..0] == [];
    assert HexValue(d1) == DigitValue(d[0]);
    assert HexValue(d2) == 16 * HexValue(d1) + DigitValue(d[1]);
    assert HexValue(d3) == 16 * HexValue(d2) + DigitValue(d[2]);
  }

  lemma ZeroIsDigit()
    ensures DigitValue(0x30) == 0 && IsHexDigit(0x30)
  {
    DigitCodes(0);
    PositionIs(0x30, 0, 0);
  }

  lemma {:induction false} LeadingZero(digits: seq<byte>)
    ensures HexValue([0x30] + digits) == HexValue(digits)
    decreases |digits|
  {
    hide DigitValue;
    ZeroIsDigit();
    if digits == [] {
      assert ([0x30] + digits)[..0] == [];
    } else {
      LeadingZero(digits[..|digits| - 1]);
      assert ([0x30] + digits)[..|digits|] == [0x30] + digits[..|digits| - 1];
    }
  }

  /** The number the stub reads is the number the digits denote. */
  lemma {:induction false} FromHexStrValue(digits: seq<byte>)
    requires |digits| <= 4
    ensures FromHexStr(digits) == HexValue(digits)
    decreases 4 - |digits|
  {
    if |digits| == 4 {
      FourDigits(digits);
    } else {
      FromHexStrValue([0x30] + digits);
      LeadingZero(digits);
      assert seq(4 - |digits|, _ => 0x30) + digits == seq(3 - |digits|, _ => 0x30) + ([0x30] + digits);
    }
  }

  // ---- in memory ----

  /** from_hex of `2 * n` digits. Source and destination may be the same array,
      as when the data of an `M` packet is decoded onto the packet: the write
      stays behind the read. */
  method FromHex(src: array<byte>, at: nat, dst: array<byte>, to: nat, n: nat)
    requires at + 2 * n <= src.Length && to + n <= dst.Length
    requires src == dst ==> to <= at
    modifies dst
    ensures dst[..] == Written(old(dst[..]), to, HexData(old(src[..]), at, n))
  {
    hide HexByte, Written;
    ghost var text, was := src[..], dst[..];
    var i := 0;
    WrittenNothing(was, to);
    while i < n
      invariant 0 <= i <= n
      invariant if src == dst then was == text else src[..] == text
      invariant dst[..] == Written(was, to, HexData(text, at, i))
    {
      var hi, lo := src[at + 2 * i], src[at + 2 * i + 1];
      WrittenBeyond(was, to, HexData(text, at, i));
      assert hi == src[..][at + 2 * i] == text[at + 2 * i];
      assert lo == src[..][at + 2 * i + 1] == text[at + 2 * i + 1];
      StoreByte(dst, to + i, HexByte(hi, lo));
      WrittenGrows(was, to, HexData(text, at, i), HexByte(hi, lo));
      i := i + 1;
    }
  }

  method StoreByte(dst: array<byte>, at: nat, c: byte)
    requires at < dst.Length
    modifies dst
    ensures dst[..] == old(dst[..])[at := c]
  {
    dst[at] := c;
  }

  lemma WrittenBeyond(was: seq<byte>, to: nat, text: seq<byte>)
    requires to + |text| <= |was|
    ensures forall k :: to + |text| <= k < |was| ==> Written(was, to, text)[k] == was[k]
  {
  }

  lemma HexTextGrows(data: seq<byte>, n: nat)
    requires n < |data|
    ensures HexText(data[..n + 1]) == HexText(data[..n]) + [HighDigit(data[n]), LowDigit(data[n])]
  {
    assert data[..n + 1][..n] == data[..n];
  }

  /** `was` with `text` written at `to`. */
  function Written(was: seq<byte>, to: nat, text: seq<byte>): (r: seq<byte>)
    requires to + |text| <= |was|
    ensures |r| == |was|
  {
    was[..to] + text + was[to + |text|..]
  }

  lemma WrittenNothing(was: seq<byte>, to: nat)
    requires to <= |was|
    ensures Written(was, to, []) == was
  {
  }

  lemma WrittenGrows(was: seq<byte>, to: nat, text: seq<byte>, c: byte)
    requires to + |text| + 1 <= |was|
    ensures Written(was, to, text)[to + |text| := c] == Written(was, to, text + [c])
  {
  }

  method CharToHex(dst: array<byte>, at: nat, c: byte)
    requires at + 2 <= dst.Length
    modifies dst
    ensures dst[..] == old(dst[..])[at := HighDigit(c)][at + 1 := LowDigit(c)]
  {
    dst[at] := HighDigit(c);
    dst[at + 1] := LowDigit(c);
  }

  /** to_hex */
  method ToHex(data: seq<byte>, dst: array<byte>, to: nat)
    requires to + 2 * |data| <= dst.Length
    modifies dst
    ensures dst[..] == Written(old(dst[..]), to, HexText(data))
  {
    ghost var was := dst[..];
    var n := 0;
    while n < |data|
      invariant 0 <= n <= |data|
      invariant dst[..] == Written(was, to, HexText(data[..n]))
    {
      ghost var text := HexText(data[..n]);
      WrittenGrows(was, to, text, HighDigit(data[n]));
      WrittenGrows(was, to, text + [HighDigit(data[n])], LowDigit(data[n]));
      assert text + [HighDigit(data[n])] + [LowDigit(data[n])] == text + [HighDigit(data[n]), LowDigit(data[n])];
      CharToHex(dst, to + 2 * n, data[n]);
      HexTextGrows(data, n);
      n := n + 1;
    }
    assert data[..n] == data;
  }
}
