/** What the host and the stub say to each other during one stop, as a function
    of what the host sends: packets in, acknowledgements and replies out, and
    the stub's state in between. */
module Conversation {
  import opened Machine
  import opened GdbState
  import opened Texts
  import opened Hex
  import opened Framing
  import opened Rst8
  import opened Commands
  import opened Parsing
  import opened CommandProofs
  import Banks

  /** Everything the conversation depends on and changes. `input` is still to
      be read, `output` has been sent. */
  datatype Talk = Talk(stub: Stub, ram: Banks.Ram, ports: Banks.Ports, buffer: Buffer,
                       input: seq<byte>, output: seq<byte>)

  /** The buffer once the next packet is read. */
  function PacketBuffer(x: Talk): Buffer {
    Received(x.buffer, x.input, FirstOutcome(x.input, 0))
  }

  /** The register file after the mapped pages have been found. */
  function WithSlots(regs: Registers, ports: Banks.Ports): Registers {
    regs[SLOT_0 := ports[0]][SLOT_0 + 1 := ports[1]][SLOT_0 + 2 := ports[2]][SLOT_3 := 7]
  }

  /** A `g` finds out the mapped pages before it is answered. */
  function Refreshed(x: Talk, parsed: Command): Talk {
    if parsed.ReadRegisters? then
      var (ram, ports) := Banks.ProbedFirst(x.ram, x.ports, 3);
      x.(ram := ram, ports := ports, stub := x.stub.(regs := WithSlots(x.stub.regs, ports)))
    else x
  }

  /** The command that a packet amounts to: a `g` sets the register file to
      what it found. */
  function Meaning(x: Talk, parsed: Command): Command {
    if parsed.ReadRegisters? then SetRegisters(Refreshed(x, parsed).stub.regs) else parsed
  }

  /** The packet in the buffer is obeyed and answered. */
  function Obey(x: Talk): Talk
    requires FieldsFit(x.buffer)
  {
    var parsed := Parse(x.buffer);
    var x' := Refreshed(x, parsed);
    x'.(stub := Apply(x'.stub, parsed), buffer := Answered(x.buffer, x'.stub, parsed),
        output := x.output + Sent(x'.stub, parsed))
  }

  /** Up to the call of process_packet: the next packet is read and
      acknowledged. */
  function Acknowledge(x: Talk, used: nat): Talk
    requires used <= |x.input|
  {
    x.(buffer := PacketBuffer(x), input := x.input[used..], output := x.output + Refusals(x.input, used) + [PLUS])
  }

  /** A payload too long for the buffer is answered with an error. */
  function Overrun(x: Talk, used: nat): Talk
    requires used <= |x.input|
  {
    x.(buffer := Marked(PacketBuffer(x)), input := x.input[used..],
       output := x.output + Refusals(x.input, used) + Frame(ERROR_REPLY))
  }

  /** The input is used up. */
  function Silence(x: Talk): Talk {
    x.(buffer := PacketBuffer(x), input := [], output := x.output + Refusals(x.input, |x.input|))
  }

  /** What a turn leaves to read. */
  lemma TurnShortens(x: Talk)
    ensures var r := FirstOutcome(x.input, 0);
      if r.Waiting? then Silence(x).input == []
      else
        && 0 < r.used <= |x.input|
        && |Acknowledge(x, r.used).input| < |x.input| && |Overrun(x, r.used).input| < |x.input|
        && Acknowledge(x, r.used).buffer == PacketBuffer(x)
        && (r.Packet? && FieldsFit(PacketBuffer(x)) ==> |Obey(Acknowledge(x, r.used)).input| < |x.input|)
  {
    OutcomeTakesInput(x.input, 0);
  }

  /** How a stop ends: at a command that resumes the debuggee, or where the host
      falls silent or leaves the model. */
  datatype Ending = Ending(talk: Talk, cs: seq<Command>, resumed: bool)

  function Converse(x: Talk): Ending
    decreases |x.input|
  {
    OutcomeTakesInput(x.input, 0);
    match FirstOutcome(x.input, 0)
    case Waiting => Ending(Silence(x), [], false)
    case Overflow(used) => Converse(Overrun(x, used))
    case Packet(_, used) =>
      var y := Acknowledge(x, used);
      if !FieldsFit(y.buffer) then Ending(y, [], false)
      else
        var c := Meaning(y, Parse(y.buffer));
        if Resumes(c) then Ending(Obey(y), [c], true)
        else
          var e := Converse(Obey(y));
          e.(cs := [c] + e.cs)
  }

  lemma ObeyApplies(x: Talk)
    requires FieldsFit(x.buffer)
    ensures Obey(x).stub == Apply(x.stub, Meaning(x, Parse(x.buffer)))
    ensures Obey(x).input == x.input && x.output <= Obey(x).output
    ensures Resumes(Meaning(x, Parse(x.buffer))) == Resumes(Parse(x.buffer))
  {
    hide Parse, Answered, Sent;
  }

  /** What is left to read, and what has been sent before. */
  predicate Goes(x: Talk, y: Talk) {
    && |y.input| <= |x.input| && y.input == x.input[|x.input| - |y.input|..]
    && x.output <= y.output
  }

  lemma GoesOn(x: Talk, y: Talk, z: Talk)
    requires Goes(x, y) && Goes(y, z)
    ensures Goes(x, z)
  {
  }

  /** A conversation leaves the stub in the state its commands make, of which
      only the last resumes; it reads forward, and takes back nothing it has
      sent. */
  lemma {:induction false} ConversationObeys(x: Talk)
    ensures var e := Converse(x);
      && e.talk.stub == ApplyAll(x.stub, e.cs)
      && Goes(x, e.talk)
      && (if e.resumed then Dialogue(e.cs, true) else forall i :: 0 <= i < |e.cs| ==> !Resumes(e.cs[i]))
    decreases |x.input|
  {
    hide FieldsFit, Parse, Apply, Obey, Meaning, Refusals, FirstOutcome, PacketBuffer, Marked;
    OutcomeTakesInput(x.input, 0);
    match FirstOutcome(x.input, 0)
    case Waiting =>
    case Overflow(used) =>
      ConversationObeys(Overrun(x, used));
      GoesOn(x, Overrun(x, used), Converse(Overrun(x, used)).talk);
    case Packet(_, used) =>
      var y := Acknowledge(x, used);
      if FieldsFit(y.buffer) {
        var c := Meaning(y, Parse(y.buffer));
        ObeyApplies(y);
        GoesOn(x, y, Obey(y));
        if Resumes(c) {
          OneCommand(x.stub, c);
        } else {
          ConversationObeys(Obey(y));
          GoesOn(x, Obey(y), Converse(Obey(y)).talk);
          FirstCommand(x.stub, c, Converse(Obey(y)).cs);
        }
      }
  }

  lemma OneCommand(s: Stub, c: Command)
    ensures ApplyAll(s, [c]) == Apply(s, c)
  {
    assert [c][..0] == [];
  }

  lemma FirstCommand(s: Stub, c: Command, cs: seq<Command>)
    ensures ApplyAll(s, [c] + cs) == ApplyAll(Apply(s, c), cs)
  {
    ApplyFirst(s, [c] + cs);
    assert ([c] + cs)[1..] == cs;
  }

  // ---- packets that a host frames ----

  /** `p` comes in framed, after anything without a `$`, and before `rest`. */
  predicate Sends(x: Talk, junk: seq<byte>, f: seq<byte>, p: seq<byte>, rest: seq<byte>) {
    Free(junk, DOLLAR) && Sendable(p) && Frames(f, p) && x.input == junk + f + rest
  }

  /** A packet the host frames properly is the next one heard, and is
      acknowledged. */
  lemma FramedIsHeard(x: Talk, junk: seq<byte>, f: seq<byte>, p: seq<byte>, rest: seq<byte>)
    requires Sends(x, junk, f, p, rest)
    ensures var used := |junk| + |p| + 4;
      && FirstOutcome(x.input, 0) == Packet(p, used) && used <= |x.input|
      && Acknowledge(x, used) == x.(buffer := PacketBuffer(x), input := rest, output := x.output + [Code('+')])
      && Has(PacketBuffer(x), 0, p + [0])
  {
    hide FirstOutcome, Refusals, Received, Sendable, Code;
    var used := |junk| + |p| + 4;
    MarksAre();
    WrittenIsRead(junk, f, p, rest, 0);
    NoRefusals(junk, f, p, rest, used);
    ReceivedHolds(x.buffer, x.input);
    assert x.input[used..] == rest;
    assert x.output + [] == x.output;
  }

  /** The talk after such a packet. */
  function Hear(x: Talk, rest: seq<byte>): Talk
    requires FieldsFit(PacketBuffer(x))
  {
    Obey(x.(buffer := PacketBuffer(x), input := rest, output := x.output + [Code('+')]))
  }

  /** And the conversation goes on from there, or ends there. */
  lemma FramedIsObeyed(x: Talk, junk: seq<byte>, f: seq<byte>, p: seq<byte>, rest: seq<byte>)
    requires Sends(x, junk, f, p, rest) && FieldsFit(PacketBuffer(x))
    ensures var y, e := Hear(x, rest), Converse(x);
      if Resumes(Parse(PacketBuffer(x))) then e.resumed && e.talk == y && e.cs == [Parse(PacketBuffer(x))]
      else e.talk == Converse(y).talk && e.resumed == Converse(y).resumed && |e.cs| == 1 + |Converse(y).cs|
  {
    hide Parse, FieldsFit, Obey, FirstOutcome, Refusals, Acknowledge, PacketBuffer;
    FramedIsHeard(x, junk, f, p, rest);
    var y := Acknowledge(x, |junk| + |p| + 4);
    ObeyApplies(y);
  }

  /** An `M` is told OK and stores its data. */
  lemma WriteIsObeyed(x: Talk, junk: seq<byte>, f: seq<byte>, address: seq<byte>, count: seq<byte>,
                      text: seq<byte>, data: seq<byte>, rest: seq<byte>)
    requires IsNumber(address) && IsNumber(count) && HexValue(count) == |data| && Denotes(text, data)
    requires Sends(x, junk, f, WritePacketText(address, count, text), rest)
    ensures FieldsFit(PacketBuffer(x)) && Parse(PacketBuffer(x)) == WriteMemory(FromHexStr(address), data)
    ensures var y := Hear(x, rest);
      && y == x.(stub := Apply(x.stub, WriteMemory(FromHexStr(address), data)), buffer := y.buffer,
                 input := rest, output := x.output + [Code('+')] + Frame(OK_REPLY))
      && Converse(x).talk == Converse(y).talk && Converse(x).resumed == Converse(y).resumed
  {
    hide Converse, Parse, FieldsFit, Denotes, Frame, PacketBuffer, WritePacketText, FromHexStr, HexValue, Answered, Apply, Code;
    var p := WritePacketText(address, count, text);
    FramedIsHeard(x, junk, f, p, rest);
    HasParts(PacketBuffer(x), 0, p, [0]);
    WritePacketParses(PacketBuffer(x), address, count, text, data);
    FramedIsObeyed(x, junk, f, p, rest);
  }

  /** An `m` is told the bytes. */
  lemma ReadIsObeyed(x: Talk, junk: seq<byte>, f: seq<byte>, address: seq<byte>, count: seq<byte>, rest: seq<byte>)
    requires IsNumber(address) && IsNumber(count) && HexValue(count) <= MAX_READ
    requires Sends(x, junk, f, ReadPacketText(address, count), rest)
    ensures FieldsFit(PacketBuffer(x)) && Parse(PacketBuffer(x)) == ReadMemory(FromHexStr(address), HexValue(count))
    ensures var y := Hear(x, rest);
      && y == x.(buffer := y.buffer, input := rest,
                 output := x.output + [Code('+')] + Frame(Reply(x.stub, ReadMemory(FromHexStr(address), HexValue(count)))))
      && Converse(x).talk == Converse(y).talk && Converse(x).resumed == Converse(y).resumed
  {
    hide Converse, Parse, FieldsFit, Frame, PacketBuffer, ReadPacketText, FromHexStr, HexValue, Answered, Reply, Code;
    var p := ReadPacketText(address, count);
    FramedIsHeard(x, junk, f, p, rest);
    ReadPacketParses(PacketBuffer(x), address, count);
    FramedIsObeyed(x, junk, f, p, rest);
  }

  /** A host that sends an `M` and then an `m` of the same range, in digits of
      either case, is told OK and then, in upper-case hex, exactly the bytes it
      wrote. */
  lemma MemoryConversation(x: Talk, address: seq<byte>, count: seq<byte>, text: seq<byte>, data: seq<byte>,
                           junk: seq<byte>, f: seq<byte>, g: seq<byte>, rest: seq<byte>)
    requires IsNumber(address) && IsNumber(count) && HexValue(count) == |data| && Denotes(text, data)
    requires Free(junk, DOLLAR)
    requires Frames(f, WritePacketText(address, count, text)) && Frames(g, ReadPacketText(address, count))
    requires |WritePacketText(address, count, text)| <= 126 && x.input == junk + f + (g + rest)
    ensures FieldsFit(PacketBuffer(x))
    ensures var y := Hear(x, g + rest);
      && FieldsFit(PacketBuffer(y))
      && var z := Hear(y, rest);
      && z.output == x.output + [Code('+')] + Frame(OK_REPLY) + [Code('+')] + Frame(HexText(data))
      && z.stub == x.stub.(mem := WriteBytes(x.stub.mem, FromHexStr(address), data))
      && z.input == rest
      && Converse(x).talk == Converse(z).talk && Converse(x).resumed == Converse(z).resumed
    ensures FromHexStr(address) == HexValue(address)
  {
    hide Converse, Parse, FieldsFit, HexText, Frame, Frames, Denotes, PacketBuffer, Hear, WritePacketText, ReadPacketText,
      FromHexStr, HexValue, Code;
    WriteTextIsFree(address, count, text, data);
    WriteTextFits(address, count, text, data);
    ReadTextIsFree(address, count);
    FromHexStrValue(address);
    WriteIsObeyed(x, junk, f, address, count, text, data, g + rest);
    var y := Hear(x, g + rest);
    assert y.input == [] + g + rest;
    ReadIsObeyed(y, [], g, address, count, rest);
    WriteThenRead(x.stub, FromHexStr(address), data);
  }

  lemma WriteTextFits(address: seq<byte>, count: seq<byte>, text: seq<byte>, data: seq<byte>)
    requires |WritePacketText(address, count, text)| <= 126 && Denotes(text, data)
    ensures |data| <= MAX_READ
  {
  }
}
