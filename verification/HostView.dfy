/** What GDB sees of the CPU and does to it: the stop report, the registers in
    the order and the digits of the wire, and what the program resumes with. */
module HostView {
  import opened Machine
  import opened GdbState
  import opened Texts
  import opened Hex
  import opened Framing
  import opened Rst8
  import opened Commands
  import opened Parsing
  import opened CommandProofs
  import opened Conversation
  import opened HostPackets
  import Banks
  import S = Session
  import T = SingleStep
  import Z80Agreement
  import M = Z80Manual

  // ---- registers as text ----

  /** Word `k` of a text of words, low byte first. */
  function WordIn(text: seq<byte>, k: nat): nat
    requires 4 * k + 4 <= |text|
  {
    HexValue(text[4 * k + 2..4 * k + 4] + text[4 * k..4 * k + 2])
  }

  lemma WordTextIs(w: word)
    ensures HexValue(WordText(w)[2..4] + WordText(w)[0..2]) == w
  {
    hide HexByte, HighDigit, LowDigit, HexValue;
    var d := WordText(w)[2..4] + WordText(w)[0..2];
    FourDigits(d);
    DigitsOfByte(Low(w));
    DigitsOfByte(High(w));
  }

  /** The text of words is the words. */
  lemma WordsAsText(words: seq<word>, k: nat)
    requires k < |words|
    ensures WordIn(HexText(WordBytes(words)), k) == words[k]
  {
    hide HexText, WordBytes, WordText, HexValue;
    WordTextAt(words, k);
    var text := HexText(WordBytes(words));
    var four := text[4 * k..4 * k + 4];
    assert text[4 * k..4 * k + 2] == four[0..2] && text[4 * k + 2..4 * k + 4] == four[2..4];
    WordTextIs(words[k]);
  }

  lemma WordsFromText(text: seq<byte>, at: nat, n: nat, k: nat)
    requires k < n && at + 4 * n <= |text|
    ensures HexWords(text, at, n)[k] == WordIn(text[at..], k)
  {
    if k < n - 1 {
      WordsFromText(text, at, n - 1, k);
    } else {
      WordFromText(text, at, k);
    }
  }

  lemma WordFromText(text: seq<byte>, at: nat, k: nat)
    requires at + 4 * k + 4 <= |text|
    ensures var i := at + 4 * k;
      Word(HexByte(text[i], text[i + 1]), HexByte(text[i + 2], text[i + 3])) == WordIn(text[at..], k)
  {
    hide HexByte, HexValue;
    var t, i := text[at..], at + 4 * k;
    var d := t[4 * k + 2..4 * k + 4] + t[4 * k..4 * k + 2];
    assert d[0] == text[i + 2] && d[1] == text[i + 3] && d[2] == text[i] && d[3] == text[i + 1];
    FourDigits(d);
  }

  // ---- the stop report ----

  /** The stop report tells the PC under the number 01, as `g` does. */
  lemma StopReportTells(pc: word)
    ensures var r := StopReply(pc);
      && |r| == 24 && r[..20] == Ascii("T05thread:p01.01;01:")
      && WordIn(r[20..], 0) == pc && HexWords(r, 20, 1) == [pc]
      && forall regs: Registers :: regs[1] == pc ==> HexText(WordBytes(regs))[4..8] == r[20..]
  {
    hide HexText, HexValue, HexByte, Ascii;
    ReplyTexts();
    var r := StopReply(pc);
    ReportDigits(pc);
    assert r[20..] == WordText(pc);
    WordTextIs(pc);
    assert WordText(pc)[..] == WordText(pc);
    WordFromText(r, 20, 0);
    assert HexWords(r, 20, 0) == [];
    forall regs: Registers | regs[1] == pc
      ensures HexText(WordBytes(regs))[4..8] == r[20..]
    {
      WordTextAt(regs, 1);
    }
  }

  lemma ReportDigits(pc: word)
    ensures HexText([Low(pc), High(pc)]) == WordText(pc)
  {
    HexTextOfTwo([], Low(pc), High(pc));
    assert [] + [Low(pc), High(pc)] == [Low(pc), High(pc)];
  }

  // ---- the CPU at a stop ----

  /** At a reported stop the register file holds the CPU that trapped: SP above
      the return address, PC on the RST 08, and the six words as they were
      pushed. */
  lemma StopShowsCpu(w: S.World, e: S.Event)
    requires e.Trap? && S.Possible(w, e) && S.Next(w, e).phase.Stopped?
    ensures var u := S.Next(w, e).stub;
      && u.regs[0] == Wrap(e.slot + 2)
      && u.regs[1] == e.at
      && u.regs[2] == e.frame[2]
      && u.regs[3] == e.frame[3]
      && u.regs[4] == e.frame[4]
      && u.regs[5] == e.frame[5]
      && u.regs[6] == e.frame[1]
      && u.regs[7] == e.frame[0]
      && u.regs[8..] == w.stub.regs[8..]
      && u.sp == e.slot && u.frame == e.frame
      && Z80Agreement.CpuOf(u.regs)
           == M.Cpu(e.frame[5], e.frame[4], e.frame[2], Wrap(e.slot + 2), e.frame[1], e.frame[0])
  {
    S.PushTraps(w.stub, e);
    LatchesAll(S.Push(w.stub, e));
  }

  lemma LatchesAll(s: Stub)
    ensures var s' := Arrive(s);
      && s'.regs == s.regs[1 := TrapAddress(s)][0 := Wrap(s.sp + 2)]
                          [7 := s.frame[0]][6 := s.frame[1]][2 := s.frame[2]][3 := s.frame[3]][4 := s.frame[4]][5 := s.frame[5]]
      && s'.sp == s.sp && s'.frame == s.frame
  {
    hide Retire;
  }

  /** The registers under the names that the target description gives them, in
      its order. */
  function Named(name: string, e: S.Event): word
    requires e.Trap?
  {
    if name == "sp" then Wrap(e.slot + 2)
    else if name == "pc" then e.at
    else if name == "hl" then e.frame[2]
    else if name == "de" then e.frame[3]
    else if name == "bc" then e.frame[4]
    else if name == "af" then e.frame[5]
    else if name == "ix" then e.frame[1]
    else e.frame[0]
  }

  lemma NamesInOrder(w: S.World, e: S.Event, k: nat)
    requires e.Trap? && S.Possible(w, e) && S.Next(w, e).phase.Stopped? && k < 8
    ensures REGISTER_NAMES == ["sp", "pc", "hl", "de", "bc", "af", "ix", "iy"]
    ensures var regs := S.Next(w, e).stub.regs;
      regs[k] == Named(REGISTER_NAMES[k], e) == WordIn(HexText(WordBytes(regs)), k)
  {
    hide HexText, WordBytes;
    StopShowsCpu(w, e);
    WordsAsText(S.Next(w, e).stub.regs, k);
    NameIs(e, k);
  }

  lemma NameIs(e: S.Event, k: nat)
    requires e.Trap? && k < 8
    ensures Named(REGISTER_NAMES[k], e) ==
      [Wrap(e.slot + 2), e.at, e.frame[2], e.frame[3], e.frame[4], e.frame[5], e.frame[1], e.frame[0]][k]
  {
  }

  // ---- a step straight after a stop ----

  /** After a stop, and any dialogue that leaves the CPU's registers alone, SP
      is the program's own: a step needs no assumption on it. */
  lemma SpIsOwn(w: S.World, e: S.Event, cs: seq<Command>)
    requires e.Trap? && S.Possible(w, e) && S.Next(w, e).phase.Stopped?
    requires forall i :: 0 <= i < |cs| ==> T.LeavesRegisters(S.Next(w, e).stub.regs, cs[i])
    ensures var u := S.Next(w, e);
      var v := u.(stub := ApplyAll(u.stub, cs));
      && v.stub.regs[0] == Wrap(v.stub.sp + 2)
      && (T.Placeable(v) && T.Spared(v) ==> T.Steppable(v))
  {
    hide T.Placeable, T.Spared, T.Returns, ApplyAll, T.LeavesRegisters;
    StopShowsCpu(w, e);
    var u := S.Next(w, e).stub;
    T.DialogueRegisters(u, cs);
    assert ApplyAll(u, cs).regs[..SLOT_0][0] == u.regs[..SLOT_0][0];
  }

  // ---- changing registers ----

  /** `P` sets the register it names: `g` shows the value there, and the old
      ones elsewhere. */
  lemma SetRegisterShows(s: Stub, i: nat, v: word, k: nat)
    requires i < 12 && k < 12
    ensures var s' := Apply(s, SetRegister(i, v));
      && s' == s.(regs := s'.regs)
      && s'.regs[k] == (if k == i then v else s.regs[k])
      && WordIn(Reply(s', ReadRegisters), k) == (if k == i then v else WordIn(Reply(s, ReadRegisters), k))
  {
    hide HexText, WordBytes;
    WordsAsText(s.regs, k);
    WordsAsText(Apply(s, SetRegister(i, v)).regs, k);
  }

  /** `G` sets all of them, in the order and the digits that `g` sends. */
  lemma SetRegistersShows(s: Stub, b: Buffer, text: seq<byte>, k: nat)
    requires |text| == 48 && Has(b, 0, Ascii("G") + text) && k < 12
    ensures FieldsFit(b)
    ensures var s' := Apply(s, Parse(b));
      && s' == s.(regs := s'.regs) && Reply(s, Parse(b)) == Ascii("OK")
      && s'.regs[k] == WordIn(text, k) == WordIn(Reply(s', ReadRegisters), k)
  {
    hide HexText, WordBytes, HexWords, HexValue, Ascii;
    PacketTexts([], [], []);
    HasParts(b, 0, [0x47], text);
    HasByte(b, 0, 0x47);
    ReplyTexts();
    WordsFromText(b, 1, 12, k);
    SameWord(b, text, k);
    WordsAsText(Apply(s, Parse(b)).regs, k);
  }

  lemma SameWord(b: Buffer, text: seq<byte>, k: nat)
    requires |text| == 48 && Has(b, 1, text) && k < 12
    ensures WordIn(b[1..], k) == WordIn(text, k)
  {
    var t := b[1..];
    assert t[..48] == text;
    assert t[4 * k + 2..4 * k + 4] == text[4 * k + 2..4 * k + 4] && t[4 * k..4 * k + 2] == text[4 * k..4 * k + 2];
  }

  /** Which of the six pushed words a register resumes from. */
  function PoppedAt(i: nat): nat
    requires 2 <= i < 8
  {
    match i
    case 2 => 2 case 3 => 3 case 4 => 4 case 5 => 5 case 6 => 1 case _ => 0
  }

  /** The program resumes with the registers GDB sees, SP apart. */
  lemma ResumesWith(s: Stub, reported: bool, at: word, i: nat)
    requires 2 <= i < 8
    ensures Leave(s, reported, at).frame[PoppedAt(i)] == s.regs[i]
    ensures s.regs[1] != at ==> WordAt(Leave(s, reported, at).mem, Leave(s, reported, at).sp) == s.regs[1]
  {
    T.LeaveReturns(s, reported, at);
  }

  /** After `P` and `c` the program has the value in the register named. */
  lemma SetThenContinue(s: Stub, i: nat, v: word, at: word, k: nat)
    requires 2 <= i < 8 && 2 <= k < 8
    ensures var s' := Leave(Apply(Apply(s, SetRegister(i, v)), Continue), true, at);
      s'.frame[PoppedAt(k)] == if k == i then v else s.regs[k]
  {
    ResumesWith(Apply(Apply(s, SetRegister(i, v)), Continue), true, at, k);
  }

  /** `P` takes its four digits high byte first, unlike `g` and `G`: given the
      digits that `g` sends for a register, it sets the bytes exchanged. */
  lemma SetRegisterSwaps(w: word)
    ensures FromHexStr(WordText(w)) == 256 * (w % 256) + w / 256
    ensures FromHexStr(WordText(w)) == w <==> w % 256 == w / 256
  {
    hide HexByte, HexValue, HighDigit, LowDigit, FromHexStr;
    FromHexStrValue(WordText(w));
    FourDigits(WordText(w));
    DigitsOfByte(Low(w));
    DigitsOfByte(High(w));
  }

  // ---- through the conversation ----

  /** `g`: the mapped pages, then the register file. */
  lemma GetGoesOn(x: Talk, junk: seq<byte>, f: seq<byte>, rest: seq<byte>, k: nat)
    requires SendsText(x, junk, f, "g", rest) && k < 12
    ensures FieldsFit(PacketBuffer(x))
    ensures var y := Hear(x, rest);
      var text := HexText(WordBytes(y.stub.regs));
      && y.input == rest && y.output == x.output + [Code('+')] + Frame(text)
      && y.stub == x.stub.(regs := y.stub.regs)
      && WordIn(text, k) == y.stub.regs[k]
      && y.stub.regs[k] == (if k < 8 then x.stub.regs[k] else if k == 11 then 7 else y.ports[k - 8])
      && Converse(x).talk == Converse(y).talk && Converse(x).resumed == Converse(y).resumed
  {
    hide PacketBuffer, Parse, FieldsFit, Converse, Frame, HexText, WordBytes, WithSlots, Hear, WordIn;
    TextIsHeard(x, junk, f, "g", rest);
    GetParses(PacketBuffer(x));
    FramedIsObeyed(x, junk, f, Ascii("g"), rest);
    GetIsHeard(x, rest);
    SlotsShow(x.stub.regs, Hear(x, rest).ports, k);
    WordsAsText(Hear(x, rest).stub.regs, k);
  }

  lemma GetIsHeard(x: Talk, rest: seq<byte>)
    requires FieldsFit(PacketBuffer(x)) && Parse(PacketBuffer(x)) == ReadRegisters
    ensures var y := Hear(x, rest);
      && y.input == rest && y.output == x.output + [Code('+')] + Frame(HexText(WordBytes(y.stub.regs)))
      && y.stub == x.stub.(regs := WithSlots(x.stub.regs, y.ports))
  {
    hide PacketBuffer, Parse, FieldsFit, Frame, HexText, WordBytes, Banks.ProbedFirst, WithSlots, Answered;
  }

  lemma SlotsShow(regs: Registers, ports: Banks.Ports, k: nat)
    requires k < 12
    ensures WithSlots(regs, ports)[k] == if k < 8 then regs[k] else if k == 11 then 7 else ports[k - 8]
  {
  }

  /** `P`, and what `g` shows after it. */
  lemma SetGoesOn(x: Talk, junk: seq<byte>, f: seq<byte>, number: seq<byte>, value: seq<byte>, rest: seq<byte>)
    requires IsNumber(number) && 1 <= |number| <= 2 && HexValue(number) < 12
    requires IsNumber(value) && |value| == 4
    requires Sends(x, junk, f, Ascii("P") + (number + (Ascii("=") + value)), rest)
    ensures FieldsFit(PacketBuffer(x)) && HexValue(value) < 0x1_0000
    ensures var y := Hear(x, rest);
      && y == x.(stub := x.stub.(regs := x.stub.regs[HexValue(number) := HexValue(value)]), buffer := y.buffer,
                 input := rest, output := x.output + [Code('+')] + Frame(Ascii("OK")))
      && Converse(x).talk == Converse(y).talk && Converse(x).resumed == Converse(y).resumed
  {
    hide PacketBuffer, Parse, FieldsFit, Converse, Frame, HexValue, FromHexStr, Ascii;
    PacketTexts([], [], []);
    ReplyTexts();
    var p := [0x50 as byte] + (number + ([EQUALS] + value));
    FramedIsHeard(x, junk, f, p, rest);
    HasParts(PacketBuffer(x), 0, p, [0]);
    SetRegisterPacketParses(PacketBuffer(x), number, value);
    FramedIsObeyed(x, junk, f, p, rest);
  }
}
