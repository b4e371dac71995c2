/** Command packets as the host writes them, letter by letter, and what each
    does to the conversation. */
module HostPackets {
  import opened Machine
  import opened GdbState
  import opened Texts
  import opened Hex
  import opened Framing
  import opened Rst8
  import opened Commands
  import opened Parsing
  import opened CommandProofs
  import opened Conversation

  lemma CodeIs(c: char, b: byte)
    requires c as int == b as int
    ensures Code(c) == b
  {
    SameValue(Code(c), b);
  }

  lemma OneCode(c: char)
    ensures Ascii([c]) == [Code(c)]
  {
  }

  /** The texts of `M`, `m`, `Z`, `z` and `P` packets. */
  lemma PacketTexts(address: seq<byte>, count: seq<byte>, text: seq<byte>)
    ensures WritePacketText(address, count, text) == Ascii("M") + address + Ascii(",") + count + Ascii(":") + text
    ensures ReadPacketText(address, count) == Ascii("m") + address + Ascii(",") + count
    ensures [COMMA] == Ascii(",") && [EQUALS] == Ascii("=")
    ensures [0x50 as byte] == Ascii("P") && [0x47 as byte] == Ascii("G") && [0x5A as byte] == Ascii("Z") && [0x7A as byte] == Ascii("z")
  {
    CodeIs('M', 0x4D);
    CodeIs('m', 0x6D);
    CodeIs(',', COMMA);
    CodeIs(':', COLON);
    CodeIs('=', EQUALS);
    CodeIs('P', 0x50);
    CodeIs('G', 0x47);
    CodeIs('Z', 0x5A);
    CodeIs('z', 0x7A);
  }

  /** The replies, as texts. */
  lemma ReplyTexts()
    ensures OK_REPLY == Ascii("OK") && ERROR_REPLY == Ascii("E01")
    ensures STOP_REPLY == Ascii("T05thread:p01.01;") && STOP_PREFIX == Ascii("T05thread:p01.01;01:")
  {
    CodeIs('O', 0x4F);
    CodeIs('K', 0x4B);
    CodeIs('E', 0x45);
    CodeIs('0', 0x30);
    CodeIs('1', 0x31);
    CodeIs('T', 0x54);
    CodeIs('5', 0x35);
    CodeIs('t', 0x74);
    CodeIs('h', 0x68);
    CodeIs('r', 0x72);
    CodeIs('e', 0x65);
    CodeIs('a', 0x61);
    CodeIs('d', 0x64);
    CodeIs(':', 0x3A);
    CodeIs('p', 0x70);
    CodeIs('.', 0x2E);
    CodeIs(';', 0x3B);
  }

  // ---- which letter does what ----

  lemma ContinueParses(b: Buffer)
    requires b[0] == Code('c')
    ensures FieldsFit(b) && Parse(b) == Continue
  {
    CodeIs('c', 0x63);
  }

  lemma StepParses(b: Buffer)
    requires b[0] == Code('s')
    ensures FieldsFit(b) && Parse(b) == Step
  {
    CodeIs('s', 0x73);
  }

  /** `i` with a digit. */
  lemma StepOverParses(b: Buffer, d: nat)
    requires d < 10 && b[0] == Code('i') && b[1] == Code(UPPER_DIGITS[d])
    ensures FieldsFit(b) && Parse(b).StepOver? && Parse(b).offset as int == d
  {
    CodeIs('i', 0x69);
    DigitCodes(d);
    OffsetOfDigit(d);
  }

  lemma OffsetOfDigit(d: nat)
    requires d < 10
    ensures (UpperCode(d) - 0x30) as int == d
  {
  }

  lemma KillParses(b: Buffer)
    requires b[0] == Code('k')
    ensures FieldsFit(b) && Parse(b) == Kill
  {
    CodeIs('k', 0x6B);
  }

  lemma WhyParses(b: Buffer)
    requires b[0] == Code('?')
    ensures FieldsFit(b) && Parse(b) == WhyStopped
  {
    CodeIs('?', 0x3F);
  }

  lemma GetParses(b: Buffer)
    requires b[0] == Code('g')
    ensures FieldsFit(b) && Parse(b) == ReadRegisters
  {
    CodeIs('g', 0x67);
  }

  /** The query for the target description, whatever follows; the query for the
      features, if nothing does; any other query is an error. */
  lemma QueryParses(b: Buffer)
    requires b[0] == Code('q')
    ensures FieldsFit(b)
    ensures Parse(b) == if Has(b, 1, Ascii("Xfer:features:read")) then Describe
                        else if Has(b, 1, Ascii("Supported") + [0]) then Features
                        else Malformed
  {
    CodeIs('q', 0x71);
  }

  /** Any other letter is an error. */
  lemma OtherParses(b: Buffer)
    requires forall c: char :: c in "csikgGPmMZzq?" ==> b[0] != Code(c)
    ensures FieldsFit(b) && Parse(b) == Malformed
  {
    CodeIs('c', 0x63);
    CodeIs('s', 0x73);
    CodeIs('i', 0x69);
    CodeIs('k', 0x6B);
    CodeIs('g', 0x67);
    CodeIs('G', 0x47);
    CodeIs('P', 0x50);
    CodeIs('m', 0x6D);
    CodeIs('M', 0x4D);
    CodeIs('Z', 0x5A);
    CodeIs('z', 0x7A);
    CodeIs('q', 0x71);
    CodeIs('?', 0x3F);
  }

  // ---- what is refused ----

  /** The first `c` of the text at `i` is at `k`. */
  predicate FirstAt(b: Buffer, i: nat, c: byte, k: nat) {
    i <= k < BUFFER_SIZE && b[k] == c && forall j :: i <= j < k ==> b[j] != c && b[j] != 0
  }

  lemma {:induction false} ChrExactly(b: Buffer, i: nat, c: byte, k: nat)
    requires i <= BUFFER_SIZE && c != 0
    ensures Chr(b, i, c) == Some(k) <==> FirstAt(b, i, c, k)
    decreases BUFFER_SIZE - i
  {
    if i < BUFFER_SIZE && b[i] != 0 && b[i] != c {
      ChrExactly(b, i + 1, c, k);
    }
  }

  /** `m` is obeyed if it has a comma and asks for at most 62 bytes. */
  lemma ReadObeyedExactly(b: Buffer)
    requires b[0] == Code('m') && FieldsFit(b)
    ensures Parse(b) != Malformed <==>
      exists comma: nat :: FirstAt(b, 1, Code(','), comma) && HexValue(b[comma + 1..NulFrom(b, comma + 1)]) <= 62
  {
    hide FirstAt, HexValue, Chr, NulFrom;
    CodeIs('m', 0x6D);
    CodeIs(',', COMMA);
    forall k: nat
      ensures Chr(b, 1, COMMA) == Some(k) <==> FirstAt(b, 1, COMMA, k)
    {
      ChrExactly(b, 1, COMMA, k);
    }
    match Chr(b, 1, COMMA)
    case None =>
    case Some(comma) =>
      FromHexStrValue(b[comma + 1..NulFrom(b, comma + 1)]);
  }

  /** `M` is obeyed if it has a comma and a colon behind it. */
  lemma WriteObeyedExactly(b: Buffer)
    requires b[0] == Code('M') && FieldsFit(b)
    ensures Parse(b) != Malformed <==>
      exists comma: nat, colon: nat :: FirstAt(b, 1, Code(','), comma) && FirstAt(b, comma, Code(':'), colon)
  {
    hide FirstAt, Number, DataOf, Chr;
    CodeIs('M', 0x4D);
    CodeIs(',', COMMA);
    CodeIs(':', COLON);
    forall k: nat
      ensures Chr(b, 1, COMMA) == Some(k) <==> FirstAt(b, 1, COMMA, k)
    {
      ChrExactly(b, 1, COMMA, k);
    }
    match Chr(b, 1, COMMA)
    case None =>
    case Some(comma) =>
      forall k: nat
        ensures Chr(b, comma, COLON) == Some(k) <==> FirstAt(b, comma, COLON, k)
      {
        ChrExactly(b, comma, COLON, k);
      }
  }

  /** `Z` and `z` are obeyed if there is a comma behind the type and another
      behind the address. */
  lemma BreakpointObeyedExactly(b: Buffer)
    requires (b[0] == Code('Z') || b[0] == Code('z')) && FieldsFit(b)
    ensures Parse(b) != Malformed <==> b[2] == Code(',') && exists comma: nat :: FirstAt(b, 3, Code(','), comma)
  {
    hide FirstAt, Number, Chr;
    CodeIs('Z', 0x5A);
    CodeIs('z', 0x7A);
    CodeIs(',', COMMA);
    forall k: nat
      ensures Chr(b, 3, COMMA) == Some(k) <==> FirstAt(b, 3, COMMA, k)
    {
      ChrExactly(b, 3, COMMA, k);
    }
  }

  /** `P` is obeyed if it has `=` behind one or two digits, for a register up
      to 11. */
  lemma SetRegisterObeyedExactly(b: Buffer)
    requires b[0] == Code('P')
    ensures Parse(b) != Malformed <==>
      exists e: nat :: FirstAt(b, 1, Code('='), e) && 2 <= e <= 3 && HexValue(b[1..e]) <= 11
  {
    hide FirstAt, HexValue, Chr;
    CodeIs('P', 0x50);
    CodeIs('=', EQUALS);
    forall k: nat
      ensures Chr(b, 1, EQUALS) == Some(k) <==> FirstAt(b, 1, EQUALS, k)
    {
      ChrExactly(b, 1, EQUALS, k);
    }
    match Chr(b, 1, EQUALS)
    case None =>
    case Some(e) =>
      if 2 <= e <= 3 {
        FromHexStrValue(b[1..e]);
      }
  }

  /** An error puts a `$` three behind the first `#` of the buffer's text, if
      that is in the buffer, or in the last byte if there is none or it comes
      too late for its digits. */
  lemma ErrorMarks(b: Buffer, i: nat)
    requires i < BUFFER_SIZE
    ensures Marked(b)[i] ==
      if (i >= 3 && FirstAt(b, 0, Code('#'), i - 3)) || (i == 127 && forall h: nat :: h <= 125 ==> !FirstAt(b, 0, Code('#'), h))
      then Code('$') else b[i]
  {
    hide FirstAt, Chr;
    MarksAre();
    forall h: nat
      ensures Chr(b, 0, HASH) == Some(h) <==> FirstAt(b, 0, HASH, h)
    {
      ChrExactly(b, 0, HASH, h);
    }
  }

  // ---- what the host is told, and whether the stop ends ----

  /** The host sends a text, framed. */
  predicate SendsText(x: Talk, junk: seq<byte>, f: seq<byte>, text: string, rest: seq<byte>) {
    text != "" && Sends(x, junk, f, Ascii(text), rest)
  }

  /** A part of a text that stands in the buffer. */
  lemma TextPart(b: Buffer, text: string, i: nat, t: string)
    requires Has(b, 0, Ascii(text) + [0]) && i + |t| <= |text| && text[i..i + |t|] == t
    ensures Has(b, i, Ascii(t))
    ensures i + |t| == |text| ==> Has(b, i, Ascii(t) + [0])
  {
    var whole := Ascii(text) + [0];
    assert forall k :: 0 <= k < |whole| ==> b[k] == b[0..0 + |whole|][k] == whole[k];
    assert forall k :: 0 <= k < |t| ==> text[i + k] == t[k];
    assert b[i..i + |t|] == Ascii(t);
    if i + |t| == |text| {
      assert b[i..i + |t| + 1] == Ascii(t) + [0];
    }
  }

  lemma TextIsHeard(x: Talk, junk: seq<byte>, f: seq<byte>, text: string, rest: seq<byte>)
    requires SendsText(x, junk, f, text, rest)
    ensures Has(PacketBuffer(x), 0, Ascii(text) + [0])
    ensures forall k :: 0 <= k < |text| ==> PacketBuffer(x)[k] == Code(text[k])
  {
    hide PacketBuffer;
    FramedIsHeard(x, junk, f, Ascii(text), rest);
    var b, whole := PacketBuffer(x), Ascii(text) + [0];
    assert b[0..0 + |whole|] == whole;
    assert forall k :: 0 <= k < |whole| ==> b[k] == whole[k];
  }

  /** `c` ends the stop, and asks for nothing. */
  lemma ContinueEnds(x: Talk, junk: seq<byte>, f: seq<byte>, rest: seq<byte>)
    requires SendsText(x, junk, f, "c", rest)
    ensures var e := Converse(x);
      && e.resumed && e.cs == [Continue]
      && e.talk == x.(buffer := e.talk.buffer, input := rest, output := x.output + [Code('+')])
  {
    hide PacketBuffer, Parse, FieldsFit, Converse;
    TextIsHeard(x, junk, f, "c", rest);
    ContinueParses(PacketBuffer(x));
    FramedIsObeyed(x, junk, f, Ascii("c"), rest);
  }

  /** `s` ends the stop, and asks for a step. */
  lemma StepEnds(x: Talk, junk: seq<byte>, f: seq<byte>, rest: seq<byte>)
    requires SendsText(x, junk, f, "s", rest)
    ensures var e := Converse(x);
      && e.resumed && e.cs == [Step]
      && e.talk == x.(stub := x.stub.(flags := x.stub.flags.(step := true)), buffer := e.talk.buffer,
                      input := rest, output := x.output + [Code('+')])
  {
    hide PacketBuffer, Parse, FieldsFit, Converse;
    TextIsHeard(x, junk, f, "s", rest);
    StepParses(PacketBuffer(x));
    FramedIsObeyed(x, junk, f, Ascii("s"), rest);
  }

  /** `i` and a digit ends the stop, and asks for a step to that far behind the
      PC. */
  lemma StepOverEnds(x: Talk, junk: seq<byte>, f: seq<byte>, d: nat, rest: seq<byte>)
    requires d < 10 && SendsText(x, junk, f, "i" + [UPPER_DIGITS[d]], rest)
    ensures var e, s := Converse(x), x.stub;
      && e.resumed && |e.cs| == 1
      && e.talk == x.(stub := s.(flags := s.flags.(step := true, force := true),
                                 temp := s.temp.(address := Wrap(s.regs[1] + d))),
                      buffer := e.talk.buffer, input := rest, output := x.output + [Code('+')])
  {
    hide PacketBuffer, Parse, FieldsFit, Converse;
    var text := "i" + [UPPER_DIGITS[d]];
    TextIsHeard(x, junk, f, text, rest);
    assert text[0] == 'i' && text[1] == UPPER_DIGITS[d];
    StepOverParses(PacketBuffer(x), d);
    FramedIsObeyed(x, junk, f, Ascii(text), rest);
  }

  /** The talk goes on after a reply that changes nothing but the buffer. */
  predicate Answers(x: Talk, reply: seq<byte>, rest: seq<byte>, y: Talk) {
    && y == x.(buffer := y.buffer, input := rest, output := x.output + [Code('+')] + reply)
    && Converse(x).talk == Converse(y).talk && Converse(x).resumed == Converse(y).resumed
  }

  /** `k` does not end the stop. */
  lemma KillGoesOn(x: Talk, junk: seq<byte>, f: seq<byte>, rest: seq<byte>)
    requires SendsText(x, junk, f, "k", rest)
    ensures FieldsFit(PacketBuffer(x)) && Answers(x, Frame(Ascii("OK")), rest, Hear(x, rest))
  {
    hide PacketBuffer, Parse, FieldsFit, Converse, Frame;
    TextIsHeard(x, junk, f, "k", rest);
    KillParses(PacketBuffer(x));
    ReplyTexts();
    FramedIsObeyed(x, junk, f, Ascii("k"), rest);
  }

  /** `?` */
  lemma WhyGoesOn(x: Talk, junk: seq<byte>, f: seq<byte>, rest: seq<byte>)
    requires SendsText(x, junk, f, "?", rest)
    ensures FieldsFit(PacketBuffer(x)) && Answers(x, Frame(Ascii("T05thread:p01.01;")), rest, Hear(x, rest))
  {
    hide PacketBuffer, Parse, FieldsFit, Converse, Frame;
    TextIsHeard(x, junk, f, "?", rest);
    WhyParses(PacketBuffer(x));
    ReplyTexts();
    FramedIsObeyed(x, junk, f, Ascii("?"), rest);
  }

  lemma SupportedGoesOn(x: Talk, junk: seq<byte>, f: seq<byte>, rest: seq<byte>)
    requires SendsText(x, junk, f, "qSupported", rest)
    ensures FieldsFit(PacketBuffer(x))
    ensures Answers(x, Frame(Ascii("PacketSize=128;qXfer:features:read+;qXfer:auxv:read+")), rest, Hear(x, rest))
  {
    hide PacketBuffer, Parse, FieldsFit, Converse, Frame, Has;
    TextIsHeard(x, junk, f, "qSupported", rest);
    TextPart(PacketBuffer(x), "qSupported", 1, "Supported");
    NotFeatures(PacketBuffer(x));
    QueryParses(PacketBuffer(x));
    FramedIsObeyed(x, junk, f, Ascii("qSupported"), rest);
  }

  lemma NotFeatures(b: Buffer)
    requires b[1] == Code('S')
    ensures !Has(b, 1, Ascii("Xfer:features:read"))
  {
    assert Ascii("Xfer:features:read")[0] == Code('X');
    assert b[1..1 + 18][0] == b[1];
  }

  /** The target description, whatever follows the query. */
  lemma DescribeGoesOn(x: Talk, junk: seq<byte>, f: seq<byte>, more: string, rest: seq<byte>)
    requires SendsText(x, junk, f, "qXfer:features:read" + more, rest)
    ensures FieldsFit(PacketBuffer(x)) && Answers(x, Ascii(TARGET_DESCRIPTION), rest, Hear(x, rest))
  {
    hide PacketBuffer, Parse, FieldsFit, Converse, Frame, Has, RegisterElements, Sends;
    var text, b := "qXfer:features:read" + more, PacketBuffer(x);
    TextIsHeard(x, junk, f, text, rest);
    assert text[0] == 'q' && text[1..1 + 18] == "Xfer:features:read";
    TextPart(b, text, 1, "Xfer:features:read");
    QueryParses(b);
    FramedIsObeyed(x, junk, f, Ascii(text), rest);
  }

  /** A payload too long is told E01, and changes nothing. */
  lemma LongGoesOn(x: Talk, junk: seq<byte>, p: seq<byte>, rest: seq<byte>)
    requires Free(junk, DOLLAR) && Free(p, DOLLAR) && Free(p, HASH) && |p| == 127
    requires x.input == junk + [Code('$')] + p + rest
    ensures var y := Overrun(x, |junk| + 128);
      && y == x.(buffer := y.buffer, input := rest, output := x.output + Frame(Ascii("E01")))
      && Converse(x) == Converse(y)
  {
    hide Frame, Refusals, FirstOutcome, Code, PacketBuffer, Marked;
    ReplyTexts();
    LongOverruns(junk, p, rest, 0);
    LongNotRefused(junk, p, rest, |junk| + 128);
    assert x.input[|junk| + 128..] == rest;
    assert x.output + [] == x.output;
  }

  /** `Z`, any type, an address: told OK, and one more occurrence of the address
      is held, or told E01 if eight are. `z`: told OK, and one occurrence less,
      or told E01 if there is none. Nothing else changes. */
  lemma BreakpointGoesOn(x: Talk, junk: seq<byte>, f: seq<byte>, command: char, kind: byte,
                         address: seq<byte>, more: seq<byte>, rest: seq<byte>)
    requires IsNumber(address) && (command == 'Z' || command == 'z')
    requires Sends(x, junk, f, [Code(command), kind, COMMA] + (address + ([COMMA] + more)), rest)
    requires command == 'z' ==> HexValue(address) != 0
    ensures FieldsFit(PacketBuffer(x)) && HexValue(address) < 0x1_0000
    ensures var y, a := Hear(x, rest), HexValue(address);
      var reply := Reply(x.stub, if command == 'Z' then Insert(a) else Remove(a));
      && TableAfter(x.stub, a, command == 'Z', y.stub, reply)
      && y == x.(stub := y.stub, buffer := y.buffer, input := rest, output := x.output + [Code('+')] + Frame(reply))
      && Converse(x).talk == Converse(y).talk && Converse(x).resumed == Converse(y).resumed
  {
    hide PacketBuffer, Parse, FieldsFit, Converse, Frame, FromHexStr, HexValue, Addresses, Apply, Reply, Answered,
      TableAfter, Code, Sends, IsNumber;
    var p := [Code(command), kind, COMMA] + (address + ([COMMA] + more));
    BreakpointIsHeard(x, junk, f, command, kind, address, more, rest);
    BreakpointEffect(x.stub, FromHexStr(address), command == 'Z');
    FramedIsObeyed(x, junk, f, p, rest);
  }

  lemma BreakpointIsHeard(x: Talk, junk: seq<byte>, f: seq<byte>, command: char, kind: byte,
                          address: seq<byte>, more: seq<byte>, rest: seq<byte>)
    requires IsNumber(address) && (command == 'Z' || command == 'z')
    requires Sends(x, junk, f, [Code(command), kind, COMMA] + (address + ([COMMA] + more)), rest)
    ensures |address| <= 4 && FromHexStr(address) == HexValue(address) && FieldsFit(PacketBuffer(x))
    ensures Parse(PacketBuffer(x)) == if command == 'Z' then Insert(FromHexStr(address)) else Remove(FromHexStr(address))
  {
    hide PacketBuffer, Parse, FieldsFit, FromHexStr, HexValue;
    var p := [Code(command), kind, COMMA] + (address + ([COMMA] + more));
    CodeIs('Z', 0x5A);
    CodeIs('z', 0x7A);
    FramedIsHeard(x, junk, f, p, rest);
    HasParts(PacketBuffer(x), 0, p, [0]);
    BreakpointPacketParses(PacketBuffer(x), Code(command), kind, address, more);
    FromHexStrValue(address);
  }

  /** The addresses held and the reply, after setting or removing one. */
  ghost predicate TableAfter(s: Stub, a: word, set': bool, s': Stub, reply: seq<byte>) {
    var held, held' := Addresses(s.table, 8), Addresses(s'.table, 8);
    var refused := if set' then |held| == 8 else a !in held;
    && s' == s.(table := s'.table)
    && reply == Ascii(if refused then "E01" else "OK")
    && (if refused then held' == held else if set' then held' == held + One(a) else held' + One(a) == held)
  }

  lemma BreakpointEffect(s: Stub, a: word, set': bool)
    requires set' || a != 0
    ensures var c := if set' then Insert(a) else Remove(a);
      TableAfter(s, a, set', Apply(s, c), Reply(s, c))
  {
    hide Addresses, InsertBreakpoint, RemoveBreakpoint, Ascii;
    InsertRefines(s.table, a);
    RemoveRefines(s.table, a);
    ReplyTexts();
  }
}
