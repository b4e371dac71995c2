/** What the commands mean: the table as a bounded multiset, memory and
    registers written and read back, and packets as GDB composes them. */
module CommandProofs {
  import opened Machine
  import opened GdbState
  import opened Texts
  import opened Hex
  import opened Framing
  import opened Rst8
  import opened Commands
  import opened Parsing
  import opened TableProofs

  // ---- the table is a multiset of at most eight addresses ----

  /** The addresses in the first `n` entries. */
  function Addresses(t: Table, n: nat): multiset<word>
    requires n <= MAX_BREAKPOINTS_COUNT
  {
    if n == 0 then multiset{}
    else Addresses(t, n - 1) + One(t[n - 1].address)
  }

  function One(a: word): multiset<word> {
    if a == 0 then multiset{} else multiset{a}
  }

  lemma OneSize(x: multiset<word>, a: word)
    ensures |x + One(a)| == |x| + if a == 0 then 0 else 1
  {
    if a == 0 {
      assert x + One(a) == x;
    }
  }

  lemma {:induction false} AddressesSize(t: Table, n: nat)
    requires n <= MAX_BREAKPOINTS_COUNT
    ensures |Addresses(t, n)| <= n
    ensures |Addresses(t, n)| == n <==> forall j :: 0 <= j < n ==> t[j].address != 0
  {
    hide One;
    if n > 0 {
      AddressesSize(t, n - 1);
      OneSize(Addresses(t, n - 1), t[n - 1].address);
    }
  }

  lemma {:induction false} AddressesHold(t: Table, a: word, n: nat)
    requires n <= MAX_BREAKPOINTS_COUNT
    ensures a in Addresses(t, n) <==> Holds(t, a, n)
  {
    if n > 0 {
      AddressesHold(t, a, n - 1);
      HoldsOne(t, a, n - 1);
    }
  }

  /** Changing one entry exchanges its address. */
  lemma {:induction false} AddressesAfter(t: Table, i: Slot, a: word, n: nat, x: word)
    requires n <= MAX_BREAKPOINTS_COUNT
    ensures var t' := t[i := t[i].(address := a)];
      Addresses(t', n)[x] == Addresses(t, n)[x] + (if i < n then One(a)[x] as int - One(t[i].address)[x] as int else 0)
  {
    hide One;
    if n > 0 {
      AddressesAfter(t, i, a, n - 1, x);
      assert n - 1 != i ==> t[i := t[i].(address := a)][n - 1] == t[n - 1];
    }
  }

  lemma AddressesExchange(t: Table, i: Slot, a: word)
    ensures var t' := t[i := t[i].(address := a)];
      && Addresses(t', MAX_BREAKPOINTS_COUNT) + One(t[i].address) == Addresses(t, MAX_BREAKPOINTS_COUNT) + One(a)
      && forall j: Slot :: t'[j].original == t[j].original
  {
    hide One;
    var t', n := t[i := t[i].(address := a)], MAX_BREAKPOINTS_COUNT;
    var left, right := Addresses(t', n) + One(t[i].address), Addresses(t, n) + One(a);
    forall x: word
      ensures left[x] == right[x]
    {
      AddressesAfter(t, i, a, n, x);
    }
    assert left == right;
  }

  /** `Z` adds one occurrence, or is refused exactly when eight are held. A
      request for address 0 adds nothing. */
  lemma InsertRefines(t: Table, a: word)
    ensures var r := InsertBreakpoint(t, a);
      var held := Addresses(t, MAX_BREAKPOINTS_COUNT);
      && (r.None? <==> |held| == 8)
      && (r.Some? ==>
            && Addresses(r.value, MAX_BREAKPOINTS_COUNT) == held + One(a)
            && forall j: Slot :: r.value[j].original == t[j].original)
  {
    AddressesSize(t, MAX_BREAKPOINTS_COUNT);
    var i := Find(t, 0, 0);
    if i.Some? {
      AddressesExchange(t, i.value, a);
    }
  }

  /** `z` removes one occurrence, or is refused exactly when there is none. For
      address 0 it finds an empty entry, changes no address and is refused
      exactly when eight are held. */
  lemma RemoveRefines(t: Table, a: word)
    ensures var r := RemoveBreakpoint(t, a);
      var held := Addresses(t, MAX_BREAKPOINTS_COUNT);
      && (r.None? <==> if a == 0 then |held| == MAX_BREAKPOINTS_COUNT else a !in held)
      && (r.Some? ==>
            && Addresses(r.value, MAX_BREAKPOINTS_COUNT) + One(a) == held
            && forall j: Slot :: r.value[j].original == t[j].original)
  {
    AddressesSize(t, MAX_BREAKPOINTS_COUNT);
    AddressesHold(t, a, MAX_BREAKPOINTS_COUNT);
    var i := Find(t, a, 0);
    if i.Some? {
      AddressesExchange(t, i.value, 0);
    }
  }

  /** `Z` and then `z` of a fresh address leave the same addresses. */
  lemma InsertThenRemove(t: Table, a: word)
    requires a != 0 && InsertBreakpoint(t, a).Some?
    ensures var r := RemoveBreakpoint(InsertBreakpoint(t, a).value, a);
      r.Some? && Addresses(r.value, MAX_BREAKPOINTS_COUNT) == Addresses(t, MAX_BREAKPOINTS_COUNT)
  {
    InsertRefines(t, a);
    var t' := InsertBreakpoint(t, a).value;
    RemoveRefines(t', a);
    Cancel(Addresses(RemoveBreakpoint(t', a).value, MAX_BREAKPOINTS_COUNT), Addresses(t, MAX_BREAKPOINTS_COUNT),
           multiset{a});
  }

  lemma Cancel(x: multiset<word>, y: multiset<word>, z: multiset<word>)
    requires x + z == y + z
    ensures x == y
  {
    assert x == (x + z) - z && y == (y + z) - z;
  }

  // ---- memory ----

  /** Offset of `x` from `a`, wrapping. */
  function Offset(a: word, x: word): word {
    Wrap(x - a)
  }

  lemma OffsetFromNext(a: word, x: word)
    ensures Offset(a, x) == 0 <==> x == a
    ensures Offset(Inc(a), x) == if x == a then 0xFFFF else Offset(a, x) - 1
  {
  }

  lemma OffsetOf(a: word, k: nat)
    requires k < 0x1_0000
    ensures Offset(a, Wrap(a + k)) == k
  {
  }

  /** `M` changes the addressed bytes to the data, and no others. */
  lemma {:induction false} WriteBytesAt(m: Memory, a: word, data: seq<byte>, x: word)
    requires |data| <= 0x1_0000
    ensures WriteBytes(m, a, data)[x] == if Offset(a, x) < |data| then data[Offset(a, x)] else m[x]
    decreases |data|
  {
    if data != [] {
      WriteBytesAt(m[a := data[0]], Inc(a), data[1..], x);
      OffsetFromNext(a, x);
    }
  }

  lemma WrapsTo(a: word)
    ensures Wrap(a) == a
  {
  }

  lemma IncShifts(a: word, k: nat)
    requires k > 0
    ensures Wrap(Inc(a) + (k - 1)) == Wrap(a + k)
  {
  }

  lemma {:induction false} MemoryBytesAt(m: Memory, a: word, n: nat, k: nat)
    requires k < n
    ensures MemoryBytes(m, a, n)[k] == m[Wrap(a + k)]
    decreases n
  {
    hide Wrap, Inc;
    WrapsTo(a);
    if k > 0 {
      MemoryBytesAt(m, Inc(a), n - 1, k - 1);
      IncShifts(a, k);
    }
  }

  lemma WrittenIsThere(m: Memory, a: word, data: seq<byte>)
    requires |data| <= 0x1_0000
    ensures MemoryBytes(WriteBytes(m, a, data), a, |data|) == data
  {
    hide Wrap, Offset;
    var m' := WriteBytes(m, a, data);
    forall k | 0 <= k < |data|
      ensures MemoryBytes(m', a, |data|)[k] == data[k]
    {
      MemoryBytesAt(m', a, |data|, k);
      WriteBytesAt(m, a, data, Wrap(a + k));
      OffsetOf(a, k);
    }
  }

  /** An `m` of the range an `M` has written answers with the data in hex, in
      a packet that fits. */
  lemma WriteThenRead(s: Stub, a: word, data: seq<byte>)
    requires |data| <= MAX_READ
    ensures var s' := Apply(s, WriteMemory(a, data));
      && Reply(s', ReadMemory(a, |data|)) == HexText(data)
      && |Frame(HexText(data))| <= BUFFER_SIZE
      && s' == s.(mem := s'.mem)
      && forall x: word :: Offset(a, x) >= |data| ==> s'.mem[x] == s.mem[x]
  {
    WrittenIsThere(s.mem, a, data);
    forall x: word | Offset(a, x) >= |data|
      ensures WriteBytes(s.mem, a, data)[x] == s.mem[x]
    {
      WriteBytesAt(s.mem, a, data, x);
    }
  }

  // ---- packets as text ----

  predicate IsNumber(d: seq<byte>) {
    |d| <= 4 && forall k :: 0 <= k < |d| ==> IsHexDigit(d[k])
  }

  lemma ChrIs(b: Buffer, i: nat, c: byte, k: nat)
    requires i <= k < BUFFER_SIZE && b[k] == c != 0
    requires forall j :: i <= j < k ==> b[j] != 0 && b[j] != c
    ensures Chr(b, i, c) == Some(k)
    decreases k - i
  {
    if i < k {
      ChrIs(b, i + 1, c, k);
    }
  }

  lemma NulIs(b: Buffer, i: nat, k: nat)
    requires i <= k < BUFFER_SIZE && b[k] == 0
    requires forall j :: i <= j < k ==> b[j] != 0
    ensures NulFrom(b, i) == k
    decreases k - i
  {
    if i < k {
      NulIs(b, i + 1, k);
    }
  }

  /** `M` address `,` count `:` data */
  function WritePacketText(address: seq<byte>, count: seq<byte>, text: seq<byte>): seq<byte> {
    [0x4D] + (address + ([COMMA] + (count + ([COLON] + text))))
  }

  /** `m` address `,` count */
  function ReadPacketText(address: seq<byte>, count: seq<byte>): seq<byte> {
    [0x6D] + (address + ([COMMA] + count))
  }

  predicate Has(b: Buffer, i: nat, part: seq<byte>) {
    i + |part| <= BUFFER_SIZE && b[i..i + |part|] == part
  }

  lemma HasParts(b: Buffer, i: nat, x: seq<byte>, y: seq<byte>)
    requires Has(b, i, x + y)
    ensures Has(b, i, x) && Has(b, i + |x|, y)
  {
    SliceParts(b, i, x, y);
  }

  lemma HasByte(b: Buffer, i: nat, c: byte)
    requires Has(b, i, [c])
    ensures b[i] == c
  {
    assert b[i] == b[i..i + 1][0];
  }

  lemma HasDigits(b: Buffer, i: nat, number: seq<byte>)
    requires Has(b, i, number) && IsNumber(number)
    ensures forall j :: i <= j < i + |number| ==> b[j] != 0 && b[j] != COMMA && b[j] != COLON && b[j] != EQUALS
  {
    forall j | i <= j < i + |number|
      ensures IsHexDigit(b[j])
    {
      assert b[j] == b[i..i + |number|][j - i];
    }
  }

  /** The fields of an `M` packet, once its separators are found. */
  lemma WriteFields(b: Buffer, comma: nat, colon: nat, address: seq<byte>, count: seq<byte>, text: seq<byte>)
    requires comma == 1 + |address| && colon == comma + 1 + |count|
    requires |address| <= 4 && |count| <= 4 && |text| == 2 * FromHexStr(count) && |text| < BUFFER_SIZE
    requires Has(b, 1, address) && Has(b, comma + 1, count) && Has(b, colon + 1, text) && b[0] == 0x4D
    requires Chr(b, 1, COMMA) == Some(comma) && Chr(b, comma, COLON) == Some(colon)
    ensures FieldsFit(b) && ParseWriteMemory(b) == WriteMemory(FromHexStr(address), HexData(b, colon + 1, FromHexStr(count)))
  {
    hide FromHexStr, HexData, Chr, DataOf, Number;
    NumberIs(b, 1, address);
    NumberIs(b, comma + 1, count);
    DataIs(b, colon + 1, FromHexStr(count));
  }

  lemma NumberIs(b: Buffer, i: nat, number: seq<byte>)
    requires |number| <= 4 && Has(b, i, number)
    ensures Number(b, i, i + |number|) == FromHexStr(number)
  {
  }

  /** A number field ends at the separator behind it. */
  lemma FieldEnds(b: Buffer, i: nat, number: seq<byte>, c: byte, rest: seq<byte>)
    requires IsNumber(number) && (c == COMMA || c == COLON || c == EQUALS)
    requires Has(b, i, number + ([c] + rest))
    ensures var k := i + |number|;
      && Has(b, i, number) && Chr(b, i, c) == Some(k) && Has(b, k + 1, rest)
      && b[k] == c
  {
    var k := i + |number|;
    HasParts(b, i, number, [c] + rest);
    HasParts(b, k, [c], rest);
    HasByte(b, k, c);
    HasDigits(b, i, number);
    ChrIs(b, i, c, k);
  }

  lemma ParseByLetter(b: Buffer)
    requires FieldsFit(b)
    ensures b[0] == 0x4D ==> Parse(b) == ParseWriteMemory(b)
    ensures b[0] == 0x6D ==> Parse(b) == ParseReadMemory(b)
  {
  }

  lemma WriteSeparators(b: Buffer, address: seq<byte>, count: seq<byte>, text: seq<byte>)
    requires IsNumber(address) && IsNumber(count)
    requires Has(b, 0, WritePacketText(address, count, text))
    ensures var comma, colon := 1 + |address|, 2 + |address| + |count|;
      && b[0] == 0x4D && Has(b, 1, address) && Has(b, comma + 1, count) && Has(b, colon + 1, text)
      && Chr(b, 1, COMMA) == Some(comma) && Chr(b, comma, COLON) == Some(colon)
  {
    var comma := 1 + |address|;
    HasParts(b, 0, [0x4D], address + ([COMMA] + (count + ([COLON] + text))));
    HasByte(b, 0, 0x4D);
    FieldEnds(b, 1, address, COMMA, count + ([COLON] + text));
    FieldEnds(b, comma + 1, count, COLON, text);
    assert b[comma] == COMMA;
  }

  /** Numbers and data in digits of either case. */
  lemma WritePacketParses(b: Buffer, address: seq<byte>, count: seq<byte>, text: seq<byte>, data: seq<byte>)
    requires IsNumber(address) && IsNumber(count) && HexValue(count) == |data| && Denotes(text, data)
    requires Has(b, 0, WritePacketText(address, count, text))
    ensures FieldsFit(b) && Parse(b) == WriteMemory(FromHexStr(address), data)
  {
    hide Parse, ParseWriteMemory, FieldsFit, Chr, HexData, FromHexStr, HexValue, DenotesByte;
    WriteSeparators(b, address, count, text);
    FromHexStrValue(count);
    HexDataIs(b, 3 + |address| + |count|, data);
    WriteFields(b, 1 + |address|, 2 + |address| + |count|, address, count, text);
    ParseByLetter(b);
  }

  lemma ReadFields(b: Buffer, comma: nat, nul: nat, address: seq<byte>, count: seq<byte>)
    requires comma == 1 + |address| && nul == comma + 1 + |count|
    requires |address| <= 4 && |count| <= 4 && FromHexStr(count) <= MAX_READ
    requires Has(b, 1, address) && Has(b, comma + 1, count) && b[0] == 0x6D
    requires Chr(b, 1, COMMA) == Some(comma) && NulFrom(b, comma + 1) == nul
    ensures FieldsFit(b) && ParseReadMemory(b) == ReadMemory(FromHexStr(address), FromHexStr(count))
  {
  }

  lemma ReadPacketParses(b: Buffer, address: seq<byte>, count: seq<byte>)
    requires IsNumber(address) && IsNumber(count) && HexValue(count) <= MAX_READ
    requires Has(b, 0, ReadPacketText(address, count) + [0])
    ensures FieldsFit(b) && Parse(b) == ReadMemory(FromHexStr(address), HexValue(count))
  {
    hide Parse, ParseReadMemory, FieldsFit, FromHexStr, HexValue;
    var comma, nul := 1 + |address|, 2 + |address| + |count|;
    HasParts(b, 0, ReadPacketText(address, count), [0]);
    HasParts(b, 0, [0x6D], address + ([COMMA] + count));
    HasByte(b, 0, 0x6D);
    HasByte(b, nul, 0);
    FieldEnds(b, 1, address, COMMA, count);
    HasDigits(b, comma + 1, count);
    NulIs(b, comma + 1, nul);
    FromHexStrValue(count);
    ReadFields(b, comma, nul, address, count);
    ParseByLetter(b);
  }

  /** `Z` or `z`, any type digit, address, anything. */
  lemma BreakpointPacketParses(b: Buffer, command: byte, kind: byte, address: seq<byte>, rest: seq<byte>)
    requires IsNumber(address) && (command == 0x5A || command == 0x7A)
    requires Has(b, 0, [command, kind, COMMA] + (address + ([COMMA] + rest)))
    ensures FieldsFit(b)
    ensures Parse(b) == if command == 0x5A then Insert(FromHexStr(address)) else Remove(FromHexStr(address))
  {
    HasParts(b, 0, [command, kind, COMMA], address + ([COMMA] + rest));
    assert b[0] == b[0..3][0] && b[2] == b[0..3][2];
    FieldEnds(b, 3, address, COMMA, rest);
  }

  /** `P` with one or two digits of register number and four of value. */
  lemma SetRegisterPacketParses(b: Buffer, number: seq<byte>, value: seq<byte>)
    requires IsNumber(number) && 1 <= |number| <= 2 && HexValue(number) < REGISTERS_COUNT
    requires IsNumber(value) && |value| == 4
    requires Has(b, 0, [0x50] + (number + ([EQUALS] + value)))
    ensures FieldsFit(b) && Parse(b) == SetRegister(HexValue(number), FromHexStr(value))
    ensures FromHexStr(value) == HexValue(value)
  {
    hide FromHexStr, HexValue, IsNumber, Chr;
    HasParts(b, 0, [0x50], number + ([EQUALS] + value));
    HasByte(b, 0, 0x50);
    FieldEnds(b, 1, number, EQUALS, value);
    FromHexStrValue(number);
    FromHexStrValue(value);
  }

  /** Sending back what `g` answered sets the registers `g` read. */
  lemma RegistersComeBack(b: Buffer, s: Stub)
    requires Has(b, 0, [0x47] + Reply(s, ReadRegisters))
    ensures FieldsFit(b) && Apply(s, Parse(b)) == s
  {
    HasParts(b, 0, [0x47], HexText(WordBytes(s.regs)));
    HasByte(b, 0, 0x47);
    WordsRoundTrip(b, 1, s.regs);
  }

  lemma DenotingIsDigits(text: seq<byte>, data: seq<byte>)
    requires Denotes(text, data)
    ensures forall k :: 0 <= k < |text| ==> IsHexDigit(text[k])
  {
    forall k | 0 <= k < |text|
      ensures IsHexDigit(text[k])
    {
      assert DenotesByte(text[2 * (k / 2)], text[2 * (k / 2) + 1], data[k / 2]);
    }
  }

  lemma WriteTextIsFree(address: seq<byte>, count: seq<byte>, text: seq<byte>, data: seq<byte>)
    requires IsNumber(address) && IsNumber(count) && Denotes(text, data)
    ensures Free(WritePacketText(address, count, text), DOLLAR)
    ensures Free(WritePacketText(address, count, text), HASH)
  {
    DenotingIsDigits(text, data);
    var p := WritePacketText(address, count, text);
    var comma, colon := 1 + |address|, 2 + |address| + |count|;
    forall i | 0 <= i < |p|
      ensures p[i] == 0x4D || p[i] == COMMA || p[i] == COLON || IsHexDigit(p[i])
    {
      if i < comma {
      } else if i <= colon {
      } else {
        assert p[i] == text[i - colon - 1];
      }
    }
  }

  lemma ReadTextIsFree(address: seq<byte>, count: seq<byte>)
    requires IsNumber(address) && IsNumber(count)
    ensures Sendable(ReadPacketText(address, count))
  {
    var q := ReadPacketText(address, count);
    forall i | 0 <= i < |q|
      ensures q[i] == 0x6D || q[i] == COMMA || IsHexDigit(q[i])
    {
    }
  }
}
