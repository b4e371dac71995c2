/** process_packet: the commands of the remote serial protocol carried out on
    the stub's state. */
module Server {
  import opened Machine
  import opened GdbState
  import opened Texts
  import opened Hex
  import opened Framing
  import opened Rst8
  import opened Commands
  import opened Parsing
  import opened Banks
  import opened Link
  import opened Conversation

  /** How a call of server_read_data ends. `OutsideModel` is a packet with a
      field the code has no room for. */
  datatype Turn =
    | Blocked
    | Overflowed
    | OutsideModel
    | Obeyed(more: bool)

  class Server {
    const port: Port
    const target: TrapHandler
    const banks: BankedMemory

    ghost predicate Valid()
      reads this, port, target
    {
      && port.Valid() && target.Valid() && banks.Valid()
      && banks.regs == target.regs
      && port.buffer != target.mem && port.wBuffer != target.mem
      && banks.ram != port.buffer && banks.ram != port.wBuffer && banks.ram != target.mem
      && target.frame != target.regs
    }

    ghost function Now(): Talk
      reads this, port, port.buffer, target, target.mem, target.table, target.regs, target.frame, banks.ram, banks.port
      requires Valid()
    {
      Talk(target.State(), banks.ram[..], banks.port[..], port.buffer[..], port.input, port.output)
    }

    /** `c` has been carried out and answered. */
    twostate predicate Did(c: Command)
      reads this, port, port.buffer, target, target.mem, target.table, target.regs, target.frame
      requires old(Valid()) && Valid()
    {
      && target.State() == Apply(old(target.State()), c)
      && port.buffer[..] == Answered(old(port.buffer[..]), old(target.State()), c)
      && port.output == old(port.output) + Sent(old(target.State()), c)
    }

    /** A server whose host is going to send `bytes`. */
    constructor (bytes: seq<byte>)
      ensures Valid() && port.input == bytes && port.output == []
    {
      var p := new Port(bytes);
      var t := new TrapHandler();
      var b := new BankedMemory(t.regs);
      port, target, banks := p, t, b;
    }

    method StrChr(i: nat, c: byte) returns (r: Option<nat>)
      requires Valid() && i <= BUFFER_SIZE
      ensures r == Chr(port.buffer[..], i, c)
    {
      var k := i;
      while k < BUFFER_SIZE && port.buffer[k] != 0
        invariant i <= k <= BUFFER_SIZE
        invariant Chr(port.buffer[..], i, c) == Chr(port.buffer[..], k, c)
      {
        if port.buffer[k] == c {
          return Some(k);
        }
        k := k + 1;
      }
      return None;
    }

    method StrEnd(i: nat) returns (e: nat)
      requires Valid() && i <= BUFFER_SIZE
      ensures e == NulFrom(port.buffer[..], i)
    {
      e := i;
      while e < BUFFER_SIZE && port.buffer[e] != 0
        invariant i <= e <= BUFFER_SIZE
        invariant NulFrom(port.buffer[..], i) == NulFrom(port.buffer[..], e)
      {
        e := e + 1;
      }
    }

    /** `m`: memory as hexadecimal text. */
    method ReadMemory(a: word, n: nat)
      requires Valid() && n <= MAX_READ
      modifies port`output, port.buffer, port.wBuffer
      ensures Valid() && Did(Command.ReadMemory(a, n))
    {
      hide Written, HexText, Frame;
      var data := Fetch(a, n);
      SendHex(data);
    }

    /** Compose hexadecimal text in the receive buffer and send it. */
    method SendHex(data: seq<byte>)
      requires Valid() && 2 * |data| + 4 <= BUFFER_SIZE
      modifies port`output, port.buffer, port.wBuffer
      ensures port.buffer[..] == Written(old(port.buffer[..]), 0, HexText(data))
      ensures port.output == old(port.output) + Frame(HexText(data))
    {
      hide HexText, Frame;
      ToHex(data, port.buffer, 0);
      assert port.buffer[..][..2 * |data|] == HexText(data);
      port.WritePacketBytes(port.buffer[..2 * |data|]);
    }

    method Fetch(a: word, n: nat) returns (data: seq<byte>)
      requires Valid()
      ensures data == MemoryBytes(target.mem[..], a, n)
    {
      data := [];
      var left: nat, from: word := n, a;
      while left != 0
        invariant left <= n
        invariant MemoryBytes(target.mem[..], a, n) == data + MemoryBytes(target.mem[..], from, left)
        decreases left
      {
        data := data + [target.mem[from]];
        from := Inc(from);
        left := left - 1;
      }
    }

    /** `M`: decode the data onto the packet itself, then copy it out. */
    method WriteMemory(a: word, at: nat, n: word)
      requires Valid() && DataFits(at, n)
      modifies port`output, port.buffer, port.wBuffer, target.mem
      ensures Valid() && Did(Command.WriteMemory(a, DataOf(old(port.buffer[..]), at, n)))
    {
      hide WriteBytes, Frame, Written, HexData;
      DataIs(port.buffer[..], at, n);
      ghost var data := DataOf(port.buffer[..], at, n);
      FromHex(port.buffer, at, port.buffer, 0, n % 128);
      assert port.buffer[..][..n] == data;
      Store(a, port.buffer[..n]);
      port.WritePacketBytes(OK_REPLY);
    }

    method Store(a: word, data: seq<byte>)
      requires Valid()
      modifies target.mem
      ensures target.mem[..] == WriteBytes(old(target.mem[..]), a, data)
    {
      var i, to: word := 0, a;
      while i < |data|
        invariant 0 <= i <= |data|
        invariant WriteBytes(old(target.mem[..]), a, data) == WriteBytes(target.mem[..], to, data[i..])
      {
        ghost var m := target.mem[..];
        target.mem[to] := data[i];
        assert target.mem[..] == m[to := data[i]];
        assert data[i..][1..] == data[i + 1..];
        to := Inc(to);
        i := i + 1;
      }
    }

    /** `Z`: the first empty entry. */
    method AddBreakpoint(a: word)
      requires Valid()
      modifies port`output, port.buffer, port.wBuffer, target.table
      ensures Valid() && Did(Insert(a))
    {
      hide Frame, Marked;
      ghost var t := target.table[..];
      var i := 0;
      while i < MAX_BREAKPOINTS_COUNT
        invariant 0 <= i <= MAX_BREAKPOINTS_COUNT && target.table[..] == t
        invariant Find(t, 0, 0) == Find(t, 0, i)
      {
        if target.table[i].address == 0 {
          target.table[i] := target.table[i].(address := a);
          port.WritePacketBytes(OK_REPLY);
          return;
        }
        i := i + 1;
      }
      port.WriteError();
    }

    /** `z`: the first entry with the address. */
    method DropBreakpoint(a: word)
      requires Valid()
      modifies port`output, port.buffer, port.wBuffer, target.table
      ensures Valid() && Did(Remove(a))
    {
      hide Frame, Marked;
      ghost var t := target.table[..];
      var i := 0;
      while i < MAX_BREAKPOINTS_COUNT
        invariant 0 <= i <= MAX_BREAKPOINTS_COUNT && target.table[..] == t
        invariant Find(t, a, 0) == Find(t, a, i)
      {
        if target.table[i].address == a {
          target.table[i] := target.table[i].(address := 0);
          port.WritePacketBytes(OK_REPLY);
          return;
        }
        i := i + 1;
      }
      port.WriteError();
    }

    /** `g`: probe the mapped pages, then send the register file. */
    method GetRegisters()
      requires Valid()
      modifies port`output, port.buffer, port.wBuffer, target.regs, banks.ram, banks.port
      ensures Valid()
      ensures var x := Refreshed(old(Now()), ReadRegisters);
        Now() == x.(buffer := Answered(x.buffer, x.stub, ReadRegisters), output := x.output + Sent(x.stub, ReadRegisters))
    {
      hide ProbedFirst, Frame, Written, HexText, WordBytes, WithSlots;
      FindPages();
      SendHex(WordBytes(target.regs[..]));
    }

    method FindPages()
      requires Valid()
      modifies target.regs, banks.ram, banks.port
      ensures Valid() && Now() == Refreshed(old(Now()), ReadRegisters)
    {
      hide ProbedFirst;
      ghost var regs := target.regs[..];
      banks.UpdateMappedPages();
      assert target.regs[..] == WithSlots(regs, banks.port[..]);
    }

    /** `G`: from_hex onto the register file, a word at a time. */
    method PutRegisters()
      requires Valid()
      modifies port`output, port.buffer, port.wBuffer, target.regs
      ensures Valid()
      ensures Did(SetRegisters(HexWords(old(port.buffer[..]), 1, REGISTERS_COUNT)))
    {
      DecodeRegisters();
      port.WritePacketBytes(OK_REPLY);
    }

    method DecodeRegisters()
      requires Valid()
      modifies target.regs
      ensures target.regs[..] == HexWords(port.buffer[..], 1, REGISTERS_COUNT)
    {
      var i := 0;
      while i < REGISTERS_COUNT
        invariant 0 <= i <= REGISTERS_COUNT
        invariant target.regs[..i] == HexWords(port.buffer[..], 1, i)
      {
        ghost var done := target.regs[..i];
        var at := 1 + 4 * i;
        target.regs[i] := Word(HexByte(port.buffer[at], port.buffer[at + 1]),
                               HexByte(port.buffer[at + 2], port.buffer[at + 3]));
        assert target.regs[..i + 1] == done + [target.regs[i]];
        i := i + 1;
      }
      assert target.regs[..i] == target.regs[..];
    }

    /** `P` */
    method PutRegister()
      requires Valid()
      modifies port`output, port.buffer, port.wBuffer, target.regs
      ensures Valid()
      ensures Did(ParseSetRegister(old(port.buffer[..])))
    {
      hide FromHexStr, Chr, Frame, Marked;
      var equals := StrChr(1, EQUALS);
      if equals.None? || equals.value == 1 || equals.value > 3 {
        port.WriteError();
        return;
      }
      var e := equals.value;
      var i := FromHexStr(port.buffer[1..e]);
      if i >= REGISTERS_COUNT {
        port.WriteError();
        return;
      }
      assert port.buffer[..][1..e] == port.buffer[1..e];
      assert port.buffer[..][e + 1..e + 5] == port.buffer[e + 1..e + 5];
      target.regs[i] := FromHexStr(port.buffer[e + 1..e + 5]);
      port.WritePacketBytes(OK_REPLY);
    }

    method ProcessReadMemory()
      requires Valid() && port.buffer[0] == 0x6D && FieldsFit(port.buffer[..])
      modifies port`output, port.buffer, port.wBuffer
      ensures Valid()
      ensures Did(ParseReadMemory(old(port.buffer[..])))
    {
      hide FromHexStr, Chr, NulFrom, Frame, Marked;
      ghost var b := port.buffer[..];
      var comma := StrChr(1, COMMA);
      if comma.None? {
        port.WriteError();
        return;
      }
      var end := StrEnd(comma.value + 1);
      assert b[1..comma.value] == port.buffer[1..comma.value];
      assert b[comma.value + 1..end] == port.buffer[comma.value + 1..end];
      var a := FromHexStr(port.buffer[1..comma.value]);
      var n := FromHexStr(port.buffer[comma.value + 1..end]);
      if n > MAX_READ {
        port.WriteError();
        return;
      }
      ReadMemory(a, n);
    }

    /** Address, place and number of the data in an `M` packet. */
    method WriteMemoryFields() returns (r: Option<(word, nat, word)>)
      requires Valid() && port.buffer[0] == 0x4D && FieldsFit(port.buffer[..])
      ensures r.Some? ==> DataFits(r.value.1, r.value.2)
      ensures ParseWriteMemory(port.buffer[..]) ==
              if r.None? then Malformed
              else Command.WriteMemory(r.value.0, DataOf(port.buffer[..], r.value.1, r.value.2))
    {
      ghost var b := port.buffer[..];
      var comma := StrChr(1, COMMA);
      if comma.None? {
        return None;
      }
      var colon := StrChr(comma.value, COLON);
      if colon.None? {
        return None;
      }
      assert b[1..comma.value] == port.buffer[1..comma.value];
      assert b[comma.value + 1..colon.value] == port.buffer[comma.value + 1..colon.value];
      var a := FromHexStr(port.buffer[1..comma.value]);
      var n := FromHexStr(port.buffer[comma.value + 1..colon.value]);
      return Some((a, colon.value + 1, n));
    }

    method ProcessWriteMemory()
      requires Valid() && port.buffer[0] == 0x4D && FieldsFit(port.buffer[..])
      modifies port`output, port.buffer, port.wBuffer, target.mem
      ensures Valid()
      ensures Did(ParseWriteMemory(old(port.buffer[..])))
    {
      var r := WriteMemoryFields();
      if r.None? {
        port.WriteError();
      } else {
        WriteMemory(r.value.0, r.value.1, r.value.2);
      }
    }

    /** `Z` and `z` */
    method ProcessBreakpoint()
      requires Valid() && (port.buffer[0] == 0x5A || port.buffer[0] == 0x7A) && FieldsFit(port.buffer[..])
      modifies port`output, port.buffer, port.wBuffer, target.table
      ensures Valid()
      ensures Did(Parse(old(port.buffer[..])))
    {
      hide FromHexStr, Chr, Frame, Marked, InsertBreakpoint, RemoveBreakpoint;
      ghost var b := port.buffer[..];
      if port.buffer[2] != COMMA {
        port.WriteError();
        return;
      }
      var comma := StrChr(3, COMMA);
      if comma.None? {
        port.WriteError();
        return;
      }
      assert b[3..comma.value] == port.buffer[3..comma.value];
      var a := FromHexStr(port.buffer[3..comma.value]);
      if port.buffer[0] == 0x7A {
        DropBreakpoint(a);
      } else {
        AddBreakpoint(a);
      }
    }

    /** Does the buffer have `text` at `i`? */
    method HasText(i: nat, text: seq<byte>) returns (same: bool)
      requires Valid() && i + |text| <= BUFFER_SIZE
      ensures same == StartsWith(port.buffer[..], i, text)
    {
      var k := 0;
      while k < |text| && port.buffer[i + k] == text[k]
        invariant 0 <= k <= |text|
        invariant port.buffer[i..i + k] == text[..k]
      {
        k := k + 1;
      }
      same := k == |text|;
      if same {
        assert text[..k] == text;
      } else {
        assert port.buffer[..][i..i + |text|][k] != text[k];
      }
    }

    method WriteStrRaw(text: seq<byte>)
      requires Valid()
      modifies port`output
      ensures port.output == old(port.output) + text
    {
      var i := 0;
      while i < |text|
        invariant 0 <= i <= |text|
        invariant port.output == old(port.output) + text[..i]
      {
        port.output := port.output + [text[i]];
        i := i + 1;
      }
      assert text[..i] == text;
    }

    /** `q` */
    method ProcessQuery()
      requires Valid() && port.buffer[0] == 0x71
      modifies port`output, port.buffer, port.wBuffer
      ensures Valid()
      ensures Did(ParseQuery(old(port.buffer[..])))
    {
      hide Ascii, StartsWith, Frame, Marked, RegisterElements, Overlay;
      var features := HasText(1, Ascii(FEATURES_QUERY));
      if features {
        WriteStrRaw(Ascii(TARGET_DESCRIPTION));
        return;
      }
      var supported := HasText(1, Ascii(SUPPORTED_QUERY) + [0]);
      if supported {
        port.WritePacketBytes(Ascii(SUPPORTED_REPLY));
      } else {
        port.WriteError();
      }
    }

    /** `i` */
    method RequestStepOver(offset: byte)
      requires Valid()
      modifies target`trapFlags, target`temp
      ensures Valid() && target.State() == Apply(old(target.State()), StepOver(offset))
    {
      hide FlagsOf, StepForced;
      SetStepAndForce(target.trapFlags);
      target.temp := target.temp.(address := Wrap(target.regs[REGISTERS_PC] + offset as int));
      target.trapFlags := StepForced(target.trapFlags);
    }

    /** The commands that only set flags, answer a constant or are unknown. */
    method ProcessSimple() returns (more: bool)
      requires Valid() && FieldsFit(port.buffer[..])
      requires port.buffer[0] !in {0x67, 0x47, 0x50, 0x6D, 0x4D, 0x5A, 0x7A, 0x71}
      modifies port`output, port.buffer, port.wBuffer, target`trapFlags, target`temp
      ensures Valid()
      ensures Did(Parse(old(port.buffer[..]))) && more == !Resumes(Parse(old(port.buffer[..])))
    {
      hide Frame, Chr, HexWords, FromHexStr, HexText, WordBytes, MemoryBytes, Marked, Overlay, FlagsOf;
      more := true;
      var command := port.buffer[0];
      if command == 0x63 {
        more := false;
      } else if command == 0x6B {
        port.WritePacketBytes(OK_REPLY);
      } else if command == 0x73 {
        SetFlag(target.trapFlags);
        target.trapFlags := target.trapFlags | TRAP_FLAG_STEP_INSTRUCTION;
        more := false;
      } else if command == 0x69 {
        RequestStepOver(port.buffer[1] - 0x30);
        more := false;
      } else if command == 0x3F {
        port.WritePacketBytes(STOP_REPLY);
      } else {
        port.WriteError();
      }
    }

    /** Every command but `g`. */
    method ProcessCommand() returns (more: bool)
      requires Valid() && FieldsFit(port.buffer[..]) && port.buffer[0] != 0x67
      modifies port`output, port.buffer, port.wBuffer, target`trapFlags, target`temp,
               target.mem, target.table, target.regs
      ensures Valid()
      ensures Did(Parse(old(port.buffer[..]))) && more == !Resumes(Parse(old(port.buffer[..])))
    {
      hide Apply, Answered, Sent, ParseSetRegister, ParseReadMemory, ParseWriteMemory, ParseBreakpoint, ParseQuery;
      more := true;
      match port.buffer[0] {
        case 0x47 => PutRegisters();
        case 0x50 => PutRegister();
        case 0x71 => ProcessQuery();
        case 0x6D => ProcessReadMemory();
        case 0x4D => ProcessWriteMemory();
        case 0x5A => ProcessBreakpoint();
        case 0x7A => ProcessBreakpoint();
        case _ => more := ProcessSimple();
      }
    }

    /** process_packet: false if the debuggee is to resume. */
    method ProcessPacket() returns (more: bool)
      requires Valid() && FieldsFit(port.buffer[..])
      modifies port`output, port.buffer, port.wBuffer, target`trapFlags, target`temp,
               target.mem, target.table, target.regs, banks.ram, banks.port
      ensures Valid()
      ensures Now() == Obey(old(Now())) && more == !Resumes(Parse(old(port.buffer[..])))
    {
      hide Chr, NulFrom, FromHexStr, HexWords, HexText, Frame, WordBytes, MemoryBytes, ProbedFirst, Answered, Sent;
      if port.buffer[0] == 0x67 {
        GetRegisters();
        more := true;
      } else {
        more := ProcessCommand();
      }
    }

    /** server_read_data: wait for a packet and obey it. */
    method ServerReadData() returns (turn: Turn)
      requires Valid()
      modifies port, port.buffer, port.wBuffer, target`trapFlags, target`temp,
               target.mem, target.table, target.regs, banks.ram, banks.port
      ensures Valid()
      ensures var x, r := old(Now()), FirstOutcome(old(port.input), 0);
        && (!r.Waiting? ==> 0 < r.used <= |x.input|)
        && match turn
           case Blocked => r.Waiting? && Now() == Silence(x)
           case Overflowed => r.Overflow? && Now() == Overrun(x, r.used)
           case OutsideModel => r.Packet? && Now() == Acknowledge(x, r.used) && !FieldsFit(Now().buffer)
           case Obeyed(more) =>
             && r.Packet? && FieldsFit(PacketBuffer(x)) && Now() == Obey(Acknowledge(x, r.used))
             && more == !Resumes(Parse(PacketBuffer(x)))
    {
      hide FieldsFit, Parse, Refusals, FirstOutcome, Obey, Received, Marked;
      OutcomeTakesInput(port.input, 0);
      ghost var x := Now();
      var r := port.ReadPacket();
      match r {
        case Waiting => turn := Blocked;
        case Overflow(_) =>
          port.WriteError();
          turn := Overflowed;
        case Packet(_, used) =>
          assert Now() == Acknowledge(x, used);
          if !FieldsFit(port.buffer[..]) {
            return OutsideModel;
          }
          var more := ProcessPacket();
          turn := Obeyed(more);
      }
    }

    /** rst8_c_trap: stop, tell GDB, obey it until it says to resume, and
        leave. `done` is false where the stub would wait for more input, or has
        read a packet outside the model. */
    method HandleTrap() returns (done: bool)
      requires Valid()
      modifies port, port.buffer, port.wBuffer, target, target.mem, target.table, target.regs, target.frame,
               banks.ram, banks.port
      ensures Valid()
      ensures var x, s, at := old(Now()), old(target.State()), TrapAddress(old(target.State()));
        if Reports(s) then
          var e := Converse(x.(stub := Arrive(s), output := x.output + Frame(StopReply(at))));
          && done == e.resumed
          && Now() == if done then e.talk.(stub := Leave(e.talk.stub, true, at)) else e.talk
        else done && Now() == x.(stub := Leave(Arrive(s), false, at))
    {
      StopsAtTrap(target.State());
      hide Arrive, Leave, Reports, TrapAddress, Converse, StopReply, Frame;
      ghost var x := Now();
      var enter, at := target.ArriveFromTrap();
      assert Now() == x.(stub := Arrive(x.stub));
      done := true;
      if enter {
        done := TellGdb();
      }
      if done {
        target.LeaveToDebuggee(enter, at);
      }
    }

    /** Report the stop, then obey. */
    method TellGdb() returns (done: bool)
      requires Valid()
      modifies port, port.buffer, port.wBuffer, target`trapFlags, target`temp,
               target.mem, target.table, target.regs, banks.ram, banks.port
      ensures Valid()
      ensures var x := old(Now());
        var e := Converse(x.(output := x.output + Frame(StopReply(x.stub.regs[REGISTERS_PC]))));
        done == e.resumed && Now() == e.talk
    {
      hide Converse, StopReply, Frame;
      port.WritePacketBytes(StopReply(target.regs[REGISTERS_PC]));
      done := ServeUntilResume();
    }

    method ServeUntilResume() returns (done: bool)
      requires Valid()
      modifies port, port.buffer, port.wBuffer, target`trapFlags, target`temp,
               target.mem, target.table, target.regs, banks.ram, banks.port
      ensures Valid()
      ensures done == Converse(old(Now())).resumed && Now() == Converse(old(Now())).talk
    {
      hide FirstOutcome, FieldsFit, Obey, Acknowledge, Overrun, Silence, PacketBuffer, Parse;
      while true
        invariant Valid()
        invariant Converse(old(Now())).talk == Converse(Now()).talk
        invariant Converse(old(Now())).resumed == Converse(Now()).resumed
        decreases |port.input|
      {
        ghost var x := Now();
        var turn := ServerReadData();
        TurnShortens(x);
        if turn.Blocked? || turn.OutsideModel? {
          return false;
        }
        if turn.Obeyed? && !turn.more {
          return true;
        }
      }
    }
  }
}
