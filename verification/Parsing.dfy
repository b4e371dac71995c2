/** Command packets as text in the receive buffer, and the replies to them. */
module Parsing {
  import opened Machine
  import opened GdbState
  import opened Texts
  import opened Hex
  import opened Framing
  import opened Commands
  import opened Rst8

  const COMMA: byte := 0x2C
  const COLON: byte := 0x3A
  const EQUALS: byte := 0x3D

  /** strchr: the first `c` from `i` on, before the terminating NUL. */
  function Chr(b: Buffer, i: nat, c: byte): (r: Option<nat>)
    requires i <= BUFFER_SIZE
    ensures r.Some? ==> i <= r.value < BUFFER_SIZE && b[r.value] == c
    decreases BUFFER_SIZE - i
  {
    if i == BUFFER_SIZE || b[i] == 0 then None
    else if b[i] == c then Some(i)
    else Chr(b, i + 1, c)
  }

  /** strlen, as the index of the NUL. */
  function NulFrom(b: Buffer, i: nat): (e: nat)
    requires i <= BUFFER_SIZE
    ensures i <= e <= BUFFER_SIZE
    decreases BUFFER_SIZE - i
  {
    if i == BUFFER_SIZE || b[i] == 0 then i else NulFrom(b, i + 1)
  }

  /** Little-endian words, as the register file lies in memory. */
  function WordBytes(words: seq<word>): (bytes: seq<byte>)
    ensures |bytes| == 2 * |words|
  {
    if words == [] then []
    else
      var n := |words| - 1;
      WordBytes(words[..n]) + [Low(words[n]), High(words[n])]
  }

  /** The words that the text of their bytes stands for. */
  function HexWords(text: seq<byte>, at: nat, n: nat): (words: seq<word>)
    requires at + 4 * n <= |text|
    ensures |words| == n
  {
    if n == 0 then []
    else
      var k := at + 4 * n - 4;
      HexWords(text, at, n - 1) + [Word(HexByte(text[k], text[k + 1]), HexByte(text[k + 2], text[k + 3]))]
  }

  /** The text of a word's two bytes. */
  function WordText(w: word): seq<byte> {
    [HighDigit(Low(w)), LowDigit(Low(w)), HighDigit(High(w)), LowDigit(High(w))]
  }

  lemma WordTextRead(text: seq<byte>, k: nat, w: word)
    requires k + 4 <= |text| && text[k..k + 4] == WordText(w)
    ensures Word(HexByte(text[k], text[k + 1]), HexByte(text[k + 2], text[k + 3])) == w
  {
    var four := text[k..k + 4];
    assert text[k] == four[0] && text[k + 1] == four[1] && text[k + 2] == four[2] && text[k + 3] == four[3];
    DigitsOfByte(Low(w));
    DigitsOfByte(High(w));
    WordOfBytes(w);
  }

  lemma {:induction false} WordTextAt(words: seq<word>, i: nat)
    requires i < |words|
    ensures HexText(WordBytes(words))[4 * i..4 * i + 4] == WordText(words[i])
  {
    hide HexText, HighDigit, LowDigit;
    var n := |words| - 1;
    HexTextOfTwo(WordBytes(words[..n]), Low(words[n]), High(words[n]));
    var rest := HexText(WordBytes(words[..n]));
    if i < n {
      WordTextAt(words[..n], i);
      assert (rest + WordText(words[n]))[4 * i..4 * i + 4] == rest[4 * i..4 * i + 4];
    } else {
      assert (rest + WordText(words[n]))[4 * n..4 * n + 4] == WordText(words[n]);
    }
  }

  lemma {:induction false} HexWordsAre(text: seq<byte>, at: nat, words: seq<word>, n: nat)
    requires n <= |words| && at + 4 * |words| <= |text|
    requires forall i :: 0 <= i < n ==> text[at + 4 * i..at + 4 * i + 4] == WordText(words[i])
    ensures HexWords(text, at, n) == words[..n]
  {
    hide HexByte, WordText, Word;
    if n > 0 {
      HexWordsAre(text, at, words, n - 1);
      WordTextRead(text, at + 4 * (n - 1), words[n - 1]);
    }
  }

  /** The text `g` sends, taken back by `G`, is the register file. */
  lemma WordsRoundTrip(text: seq<byte>, at: nat, words: seq<word>)
    requires at + 4 * |words| <= |text| && text[at..at + 4 * |words|] == HexText(WordBytes(words))
    ensures HexWords(text, at, |words|) == words
  {
    hide HexText, WordBytes, WordText;
    forall i | 0 <= i < |words|
      ensures text[at + 4 * i..at + 4 * i + 4] == WordText(words[i])
    {
      WordTextAt(words, i);
      SliceOfSlice(text, at, 4 * |words|, 4 * i, 4 * i + 4);
    }
    HexWordsAre(text, at, words, |words|);
  }

  lemma HexTextOfTwo(rest: seq<byte>, lo: byte, hi: byte)
    ensures HexText(rest + [lo, hi]) ==
            HexText(rest) + [HighDigit(lo), LowDigit(lo), HighDigit(hi), LowDigit(hi)]
  {
    var all := rest + [lo, hi];
    assert all[..|rest| + 1] == rest + [lo] && (rest + [lo])[..|rest|] == rest;
    assert HexText(rest + [lo]) == HexText(rest) + [HighDigit(lo), LowDigit(lo)];
  }

  function MemoryBytes(m: Memory, a: word, n: nat): (data: seq<byte>)
    ensures |data| == n
    decreases n
  {
    if n == 0 then [] else [m[a]] + MemoryBytes(m, Inc(a), n - 1)
  }

  const MAX_READ := (BUFFER_SIZE - 4) / 2

  // ---- commands ----

  /** `t` stands at `i`. */
  predicate StartsWith(b: Buffer, i: nat, t: seq<byte>) {
    i + |t| <= BUFFER_SIZE && b[i..i + |t|] == t
  }

  const FEATURES_QUERY := "Xfer:features:read"
  const SUPPORTED_QUERY := "Supported"

  /** A number field; longer ones than four digits make the code write outside
      its own locals, and are not modelled. */
  predicate Field(b: Buffer, from: nat, to: nat) {
    from <= to <= BUFFER_SIZE && to - from <= 4
  }

  function Number(b: Buffer, from: nat, to: nat): word
    requires Field(b, from, to)
  {
    FromHexStr(b[from..to])
  }

  /** The number fields of the packet are short enough, and an `M` reads
      nothing behind the buffer. The code counts the digits of its data modulo
      256. */
  predicate FieldsFit(b: Buffer) {
    if b[0] == 0x6D then
      var comma := Chr(b, 1, COMMA);
      comma.Some? ==> Field(b, 1, comma.value) && Field(b, comma.value + 1, NulFrom(b, comma.value + 1))
    else if b[0] == 0x4D then
      var comma := Chr(b, 1, COMMA);
      comma.Some? ==>
        var colon := Chr(b, comma.value, COLON);
        colon.Some? ==>
          && Field(b, 1, comma.value)
          && Field(b, comma.value + 1, colon.value)
          && DataFits(colon.value + 1, Number(b, comma.value + 1, colon.value))
    else if b[0] == 0x5A || b[0] == 0x7A then
      b[2] == COMMA ==>
        var comma := Chr(b, 3, COMMA);
        comma.Some? ==> Field(b, 3, comma.value)
    else true
  }

  predicate DataFits(at: nat, n: word) {
    at + 2 * (n % 128) <= BUFFER_SIZE && n <= BUFFER_SIZE
  }

  /** The `n` bytes that an `M` stores: the buffer after its digits from `at` on
      have been decoded onto its start. */
  function DataOf(b: Buffer, at: nat, n: word): (data: seq<byte>)
    requires DataFits(at, n)
    ensures |data| == n
  {
    Written(b, 0, HexData(b, at, n % 128))[..n]
  }

  /** Fewer than 128 bytes are the ones the digits denote; 128 are the packet's
      own text. */
  lemma DataIs(b: Buffer, at: nat, n: word)
    requires DataFits(at, n)
    ensures DataOf(b, at, n) == if n < 128 then HexData(b, at, n) else b
    ensures Written(b, 0, DataOf(b, at, n)) == Written(b, 0, HexData(b, at, n % 128))
  {
    hide HexData;
    var data := HexData(b, at, n % 128);
    if n < 128 {
      StartOf(b, data);
    } else {
      assert data == [] && Written(b, 0, data) == b && Written(b, 0, b) == b && b[..n] == b;
    }
  }

  lemma StartOf(b: Buffer, data: seq<byte>)
    requires |data| <= BUFFER_SIZE
    ensures Written(b, 0, data)[..|data|] == data
  {
  }

  function ParseSetRegister(b: Buffer): (c: Command)
    ensures !Resumes(c)
  {
    match Chr(b, 1, EQUALS)
    case None => Malformed
    case Some(e) =>
      if e == 1 || e > 3 then Malformed
      else
        var i := Number(b, 1, e);
        if i >= REGISTERS_COUNT then Malformed else SetRegister(i, Number(b, e + 1, e + 5))
  }

  function ParseReadMemory(b: Buffer): (c: Command)
    requires b[0] == 0x6D && FieldsFit(b)
    ensures !Resumes(c)
  {
    match Chr(b, 1, COMMA)
    case None => Malformed
    case Some(comma) =>
      var n := Number(b, comma + 1, NulFrom(b, comma + 1));
      if n > MAX_READ then Malformed else ReadMemory(Number(b, 1, comma), n)
  }

  function ParseWriteMemory(b: Buffer): (c: Command)
    requires b[0] == 0x4D && FieldsFit(b)
    ensures !Resumes(c)
  {
    match Chr(b, 1, COMMA)
    case None => Malformed
    case Some(comma) =>
      match Chr(b, comma, COLON)
      case None => Malformed
      case Some(colon) =>
        WriteMemory(Number(b, 1, comma), DataOf(b, colon + 1, Number(b, comma + 1, colon)))
  }

  /** The type digit is not looked at. */
  function ParseBreakpoint(b: Buffer): Option<word>
    requires (b[0] == 0x5A || b[0] == 0x7A) && FieldsFit(b)
  {
    if b[2] != COMMA then None
    else
      match Chr(b, 3, COMMA)
      case None => None
      case Some(comma) => Some(Number(b, 3, comma))
  }

  function ParseQuery(b: Buffer): (c: Command)
    ensures !Resumes(c)
  {
    if StartsWith(b, 1, Ascii(FEATURES_QUERY)) then Describe
    else if StartsWith(b, 1, Ascii(SUPPORTED_QUERY) + [0]) then Features
    else Malformed
  }

  function Parse(b: Buffer): Command
    requires FieldsFit(b)
  {
    if b[0] == 0x63 then Continue
    else if b[0] == 0x6B then Kill
    else if b[0] == 0x73 then Step
    else if b[0] == 0x69 then StepOver(b[1] - 0x30)
    else if b[0] == 0x71 then ParseQuery(b)
    else if b[0] == 0x3F then WhyStopped
    else if b[0] == 0x67 then ReadRegisters
    else if b[0] == 0x47 then SetRegisters(HexWords(b, 1, REGISTERS_COUNT))
    else if b[0] == 0x50 then ParseSetRegister(b)
    else if b[0] == 0x6D then ParseReadMemory(b)
    else if b[0] == 0x4D then ParseWriteMemory(b)
    else if b[0] == 0x5A then
      (match ParseBreakpoint(b) case Some(a) => Insert(a) case None => Malformed)
    else if b[0] == 0x7A then
      (match ParseBreakpoint(b) case Some(a) => Remove(a) case None => Malformed)
    else Malformed
  }

  // ---- replies ----

  /** "E01" */
  const ERROR_REPLY: seq<byte> := [0x45, 0x30, 0x31]

  /** "OK" */
  const OK_REPLY: seq<byte> := [0x4F, 0x4B]

  /** "T05thread:p01.01;" */
  const STOP_REPLY: seq<byte> :=
    [0x54, 0x30, 0x35, 0x74, 0x68, 0x72, 0x65, 0x61, 0x64, 0x3A, 0x70, 0x30, 0x31, 0x2E, 0x30, 0x31, 0x3B]

  /** "T05thread:p01.01;01:" */
  const STOP_PREFIX: seq<byte> := STOP_REPLY + [0x30, 0x31, 0x3A]

  /** What GDB is told when the debuggee stops at `pc`. */
  function StopReply(pc: word): (reply: seq<byte>)
    ensures |reply| == 24
  {
    STOP_PREFIX + HexText([Low(pc), High(pc)])
  }

  /** The answer to `qSupported`. */
  const SUPPORTED_REPLY := "PacketSize=128;qXfer:features:read+;qXfer:auxv:read+"

  /** The CPU's registers in the order of the register file. */
  const REGISTER_NAMES := ["sp", "pc", "hl", "de", "bc", "af", "ix", "iy"]

  function RegisterElement(name: string): string {
    "<reg name=\"" + name + "\" bitsize=\"16\" type=\""
    + (if name == "sp" then "data_ptr" else if name == "pc" then "code_ptr" else "int") + "\"/>"
  }

  function RegisterElements(names: seq<string>): string {
    if names == [] then "" else RegisterElement(names[0]) + RegisterElements(names[1..])
  }

  /** The answer to `qXfer:features:read`, frame and all, which is sent as it is. */
  const TARGET_DESCRIPTION :=
    "$l<target version=\"1.0\"><feature name=\"org.gnu.gdb.z80.cpu\">"
    + RegisterElements(REGISTER_NAMES)
    + "</feature><architecture>z80</architecture></target>#2f"

  /** The payload answered to a command that does not resume the debuggee. */
  function Reply(s: Stub, c: Command): seq<byte> {
    match c
    case Malformed => ERROR_REPLY
    case WhyStopped => STOP_REPLY
    case Features => Ascii(SUPPORTED_REPLY)
    case ReadMemory(a, n) => HexText(MemoryBytes(s.mem, a, n))
    case ReadRegisters => HexText(WordBytes(s.regs))
    case Insert(a) => if InsertBreakpoint(s.table, a).Some? then OK_REPLY else ERROR_REPLY
    case Remove(a) => if RemoveBreakpoint(s.table, a).Some? then OK_REPLY else ERROR_REPLY
    case _ => OK_REPLY
  }

  /** What goes over the line in answer to a command. */
  function Sent(s: Stub, c: Command): seq<byte> {
    if Resumes(c) then [] else if c.Describe? then Ascii(TARGET_DESCRIPTION) else Frame(Reply(s, c))
  }

  // ---- the buffer ----

  /** Where write_error puts the `$` that ends console text: behind a `#` and
      its two digits, if there is one, and else in the last byte. */
  function ErrorMark(b: Buffer): nat {
    match Chr(b, 0, HASH)
    case Some(h) => if h <= BUFFER_SIZE - 3 then h + 3 else BUFFER_SIZE - 1
    case None => BUFFER_SIZE - 1
  }

  /** The buffer after an error. */
  function Marked(b: Buffer): Buffer {
    if ErrorMark(b) < BUFFER_SIZE then b[ErrorMark(b) := DOLLAR] else b
  }

  function Overlay(b: Buffer, data: seq<byte>): Buffer {
    if |data| <= BUFFER_SIZE then Written(b, 0, data) else b
  }

  /** The buffer after a command, which replies through it. */
  function Answered(b: Buffer, s: Stub, c: Command): Buffer {
    match c
    case ReadMemory(_, _) => Overlay(b, Reply(s, c))
    case ReadRegisters => Overlay(b, Reply(s, c))
    case WriteMemory(_, data) => Overlay(b, data)
    case Malformed => Marked(b)
    case Insert(a) => if InsertBreakpoint(s.table, a).Some? then b else Marked(b)
    case Remove(a) => if RemoveBreakpoint(s.table, a).Some? then b else Marked(b)
    case _ => b
  }
}
