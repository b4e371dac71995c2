/** The RST 08 trap: what the stub does to live memory, to its tables and to
    the saved registers between the debuggee's stop and its resumption.
    The functions say what happens; class TrapHandler does it. */
module Rst8 {
  import opened Machine
  import opened GdbState
  import opened Z80Decode

  const TRAP_FLAG_RESTORE_RST08H: byte := 0x01
  const TRAP_FLAG_STEP_INSTRUCTION: byte := 0x02
  const TRAP_FLAG_BREAK_HIT: byte := 0x04
  const TRAP_FLAG_FORCE_ADDRESS: byte := 0x08

  datatype Flags = Flags(restore: bool, step: bool, hit: bool, force: bool)

  function FlagsOf(b: byte): Flags {
    Flags(b & TRAP_FLAG_RESTORE_RST08H != 0, b & TRAP_FLAG_STEP_INSTRUCTION != 0,
          b & TRAP_FLAG_BREAK_HIT != 0, b & TRAP_FLAG_FORCE_ADDRESS != 0)
  }

  /** The bits, which the assembly entry shares. */
  lemma FlagBits()
    ensures FlagsOf(0x00) == Flags(false, false, false, false)
    ensures FlagsOf(0x01) == Flags(true, false, false, false)
    ensures FlagsOf(0x02) == Flags(false, true, false, false)
    ensures FlagsOf(0x04) == Flags(false, false, true, false)
    ensures FlagsOf(0x08) == Flags(false, false, false, true)
  {
  }

  lemma SetFlag(b: byte)
    ensures FlagsOf(b | TRAP_FLAG_RESTORE_RST08H) == FlagsOf(b).(restore := true)
    ensures FlagsOf(b | TRAP_FLAG_STEP_INSTRUCTION) == FlagsOf(b).(step := true)
    ensures FlagsOf(b | TRAP_FLAG_BREAK_HIT) == FlagsOf(b).(hit := true)
  {
  }

  /** A step to an address that is given. */
  function StepForced(b: byte): byte {
    b | (TRAP_FLAG_STEP_INSTRUCTION | TRAP_FLAG_FORCE_ADDRESS)
  }

  lemma SetStepAndForce(b: byte)
    ensures FlagsOf(StepForced(b)) == FlagsOf(b).(step := true, force := true)
  {
  }

  lemma ClearFlag(b: byte)
    ensures FlagsOf(b & !TRAP_FLAG_RESTORE_RST08H) == FlagsOf(b).(restore := false)
    ensures FlagsOf(b & !TRAP_FLAG_STEP_INSTRUCTION) == FlagsOf(b).(step := false)
    ensures FlagsOf(b & !TRAP_FLAG_BREAK_HIT) == FlagsOf(b).(hit := false)
    ensures FlagsOf(b & !TRAP_FLAG_FORCE_ADDRESS) == FlagsOf(b).(force := false)
  {
  }

  /** IY, IX, HL, DE, BC, AF as pushed by the trap's assembly entry. */
  type SavedRegs = f: seq<word> | |f| == 6 witness [0, 0, 0, 0, 0, 0]

  type Slot = i: nat | i < MAX_BREAKPOINTS_COUNT

  /** `sp` points at the return address RST 08 pushed; `listening` is
      enable_serial_interrupt. */
  datatype Stub = Stub(mem: Memory, flags: Flags, temp: Breakpoint, table: Table, restoreIdx: Slot,
                       regs: Registers, frame: SavedRegs, sp: word, listening: bool)

  // ---- the breakpoint table against memory ----

  /** Take one entry out of memory; an entry whose RST 08 is gone is dropped. */
  function RetireOne(m: Memory, b: Breakpoint): (Memory, Breakpoint) {
    if b.address == 0 then (m, b)
    else if m[b.address] == RST08 then (m[b.address := b.original], b)
    else (m, b.(address := 0))
  }

  function Retire(m: Memory, t: Table, n: nat): (Memory, Table)
    requires n <= MAX_BREAKPOINTS_COUNT
  {
    if n == 0 then (m, t)
    else
      var (m', t') := Retire(m, t, n - 1);
      var (m'', b) := RetireOne(m', t'[n - 1]);
      (m'', t'[n - 1 := b])
  }

  /** Put one entry into memory, unless execution resumes on it. */
  function PlantOne(m: Memory, b: Breakpoint, pc: word): (Memory, Breakpoint) {
    if b.address == 0 || b.address == pc then (m, b)
    else (m[b.address := RST08], b.(original := m[b.address]))
  }

  function Plant(m: Memory, t: Table, pc: word, n: nat): (Memory, Table)
    requires n <= MAX_BREAKPOINTS_COUNT
  {
    if n == 0 then (m, t)
    else
      var (m', t') := Plant(m, t, pc, n - 1);
      var (m'', b) := PlantOne(m', t'[n - 1], pc);
      (m'', t'[n - 1 := b])
  }

  /** Some entry holds address `a`. */
  predicate Holds(t: Table, a: word, n: nat)
    requires n <= MAX_BREAKPOINTS_COUNT
  {
    exists i :: 0 <= i < n && t[i].address != 0 && t[i].address == a
  }

  lemma HoldsStep(t: Table, b: Breakpoint, a: word, i: Slot)
    ensures Holds(t[i := b], a, i + 1) == (Holds(t, a, i) || (b.address != 0 && b.address == a))
  {
    var t' := t[i := b];
    assert forall j :: 0 <= j < i ==> t'[j] == t[j];
    assert t'[i] == b;
  }

  /** The last entry at `pc`, whose planting has to wait. */
  function Deferred(t: Table, pc: word, n: nat, otherwise: Slot): Slot
    requires n <= MAX_BREAKPOINTS_COUNT
  {
    if n == 0 then otherwise
    else if t[n - 1].address != 0 && t[n - 1].address == pc then n - 1
    else Deferred(t, pc, n - 1, otherwise)
  }

  // ---- stopping ----

  function TrapAddress(s: Stub): word {
    Wrap(WordAt(s.mem, s.sp) - 1)
  }

  predicate AtTemporary(s: Stub) {
    s.temp.address != 0 && s.temp.address == TrapAddress(s)
  }

  /** The trap is shown to GDB: it is not just the end of a silent step. */
  predicate Reports(s: Stub) {
    AtTemporary(s) ==> s.flags.step
  }

  /** Plant the entry that waited, with the byte it now covers. */
  function RestoreEntry(s: Stub): Stub {
    var b := s.table[s.restoreIdx];
    s.(mem := s.mem[b.address := RST08],
       table := s.table[s.restoreIdx := b.(original := s.mem[b.address])],
       flags := s.flags.(restore := false))
  }

  function StepEnded(s: Stub): Stub {
    s.(flags := s.flags.(step := false), temp := s.temp.(address := 0))
  }

  /** Undo the temporary breakpoint, then plant the entry that waited for it. */
  function RetireTemporary(s: Stub): Stub {
    var s1 := s.(mem := s.mem[s.temp.address := s.temp.original], flags := s.flags.(hit := true));
    var s2 := if s.flags.restore then RestoreEntry(s1) else s1;
    StepEnded(s2)
  }

  function RetireTable(s: Stub, at: word): Stub {
    var (m, t) := Retire(s.mem, s.table, MAX_BREAKPOINTS_COUNT);
    s.(mem := m, table := t,
       flags := s.flags.(hit := s.flags.hit || Holds(t, at, MAX_BREAKPOINTS_COUNT)))
  }

  function LatchRegisters(s: Stub, at: word): Registers {
    s.regs[REGISTERS_PC := at][REGISTERS_SP := Wrap(s.sp + 2)]
          [REGISTERS_IY := s.frame[0]][REGISTERS_IX := s.frame[1]][REGISTERS_HL := s.frame[2]]
          [REGISTERS_DE := s.frame[3]][REGISTERS_BC := s.frame[4]][REGISTERS_AF := s.frame[5]]
  }

  function Quieten(s: Stub): Stub {
    s.(listening := false, flags := s.flags.(hit := false))
  }

  /** From the trap up to the GDB loop. */
  function Arrive(s: Stub): Stub {
    var at := TrapAddress(s);
    var s1 := Quieten(s);
    var s2 := if AtTemporary(s) then RetireTemporary(s1) else s1;
    var s3 := if Reports(s) then RetireTable(s2, at) else s2;
    s3.(regs := LatchRegisters(s3, at))
  }

  lemma StopsAtTrap(s: Stub)
    ensures Arrive(s).regs[REGISTERS_PC] == TrapAddress(s)
  {
  }

  // ---- resuming ----

  function FrameOf(regs: Registers): SavedRegs {
    [regs[REGISTERS_IY], regs[REGISTERS_IX], regs[REGISTERS_HL],
     regs[REGISTERS_DE], regs[REGISTERS_BC], regs[REGISTERS_AF]]
  }

  function PlantTable(s: Stub): Stub {
    var pc := s.regs[REGISTERS_PC];
    var (m, t) := Plant(s.mem, s.table, pc, MAX_BREAKPOINTS_COUNT);
    s.(mem := m, table := t,
       restoreIdx := Deferred(s.table, pc, MAX_BREAKPOINTS_COUNT, s.restoreIdx),
       flags := s.flags.(restore := s.flags.restore || Holds(s.table, pc, MAX_BREAKPOINTS_COUNT)))
  }

  /** Where the temporary breakpoint goes. */
  function StepTarget(s: Stub): word {
    if s.flags.force then s.temp.address else NextPc(s.mem, s.regs)
  }

  function ArmTemporary(s: Stub): Stub {
    if s.flags.step || s.flags.restore then
      var next := StepTarget(s);
      s.(mem := s.mem[next := RST08], temp := Breakpoint(next, s.mem[next]),
         flags := s.flags.(force := false))
    else s
  }

  function ResumeAddress(s: Stub, at: word): word {
    if s.regs[REGISTERS_PC] != at then s.regs[REGISTERS_PC]
    else if s.flags.hit then at
    else Wrap(at + 1)
  }

  function SetReturn(s: Stub, at: word): Stub {
    s.(mem := SetWord(s.mem, s.sp, ResumeAddress(s, at)), listening := true)
  }

  /** From the GDB loop, if it was entered, back to the debuggee. */
  function Leave(s: Stub, reported: bool, at: word): Stub {
    var s1 := s.(frame := FrameOf(s.regs));
    var s2 := if reported then PlantTable(s1) else s1;
    SetReturn(ArmTemporary(s2), at)
  }

  /** Ctrl-C at an interrupted `pc`. */
  function CtrlC(s: Stub, pc: word): Stub {
    if !s.listening then s
    else s.(listening := false, temp := Breakpoint(pc, s.mem[pc]), mem := s.mem[pc := RST08],
            flags := s.flags.(step := true))
  }

  class TrapHandler {
    const mem: array<byte>
    const table: array<Breakpoint>
    const regs: array<word>
    const frame: array<word>
    var trapFlags: byte
    var temp: Breakpoint
    var trapRestoreIdx: nat
    var sp: word
    var listening: bool

    ghost predicate Valid()
      reads this
    {
      && mem.Length == 0x1_0000
      && table.Length == MAX_BREAKPOINTS_COUNT
      && regs.Length == REGISTERS_COUNT
      && frame.Length == 6
      && regs != frame
      && trapRestoreIdx < MAX_BREAKPOINTS_COUNT
    }

    ghost function State(): Stub
      reads this, mem, table, regs, frame
      requires Valid()
    {
      Stub(mem[..], FlagsOf(trapFlags), temp, table[..], trapRestoreIdx, regs[..], frame[..], sp, listening)
    }

    constructor ()
      ensures Valid() && fresh(mem) && fresh(table) && fresh(regs) && fresh(frame)
    {
      mem := new byte[0x1_0000](_ => 0);
      table := new Breakpoint[MAX_BREAKPOINTS_COUNT](_ => Breakpoint(0, 0));
      regs := new word[REGISTERS_COUNT](_ => 0);
      frame := new word[6](_ => 0);
      trapFlags, temp, trapRestoreIdx, sp, listening := 0, Breakpoint(0, 0), 0, 0, false;
    }

    method RetireBreakpoint(i: Slot, at: word)
      requires Valid()
      modifies this`trapFlags, mem, table
      ensures Valid()
      ensures (mem[..], table[i]) == RetireOne(old(mem[..]), old(table[i]))
      ensures table[..] == old(table[..])[i := table[i]]
      ensures FlagsOf(trapFlags) == FlagsOf(old(trapFlags)).(hit :=
                FlagsOf(old(trapFlags)).hit || (table[i].address != 0 && table[i].address == at))
    {
      if table[i].address != 0 {
        if mem[table[i].address] == RST08 {
          mem[table[i].address] := table[i].original;
          if table[i].address == at {
            SetFlag(trapFlags);
            trapFlags := trapFlags | TRAP_FLAG_BREAK_HIT;
          }
        } else {
          table[i] := table[i].(address := 0);
        }
      }
    }

    method RetireBreakpoints(at: word)
      requires Valid()
      modifies this`trapFlags, mem, table
      ensures Valid()
      ensures State() == RetireTable(old(State()), at)
    {
      ghost var m, t, was := mem[..], table[..], FlagsOf(trapFlags);
      var i := 0;
      while i < MAX_BREAKPOINTS_COUNT
        invariant Valid() && 0 <= i <= MAX_BREAKPOINTS_COUNT
        invariant Retire(m, t, i) == (mem[..], table[..])
        invariant FlagsOf(trapFlags) == was.(hit := was.hit || Holds(table[..], at, i))
      {
        ghost var t1 := table[..];
        RetireBreakpoint(i, at);
        HoldsStep(t1, table[i], at, i);
        i := i + 1;
      }
    }

    /** Plant the entry that waited for the temporary breakpoint. */
    method RestoreDeferred()
      requires Valid()
      modifies this`trapFlags, mem, table
      ensures Valid()
      ensures State() == RestoreEntry(old(State()))
    {
      // Reading the byte just recorded back from RAM cannot fail.
      var address := table[trapRestoreIdx].address;
      table[trapRestoreIdx] := table[trapRestoreIdx].(original := mem[address]);
      mem[address] := RST08;
      ClearFlag(trapFlags);
      trapFlags := trapFlags & !TRAP_FLAG_RESTORE_RST08H;
    }

    /** The trap is at the temporary breakpoint. */
    method UndoTemporary() returns (enter: bool)
      requires Valid() && temp.address != 0
      modifies this`trapFlags, this`temp, mem, table
      ensures Valid()
      ensures State() == RetireTemporary(old(State()))
      ensures enter == old(State()).flags.step
    {
      SetFlag(trapFlags);
      trapFlags := trapFlags | TRAP_FLAG_BREAK_HIT;
      mem[temp.address] := temp.original;
      if trapFlags & TRAP_FLAG_RESTORE_RST08H != 0 {
        RestoreDeferred();
      }
      enter := EndStep();
    }

    method EndStep() returns (enter: bool)
      requires Valid()
      modifies this`trapFlags, this`temp
      ensures Valid()
      ensures State() == StepEnded(old(State()))
      ensures enter == old(State()).flags.step
    {
      enter := false;
      if trapFlags & TRAP_FLAG_STEP_INSTRUCTION != 0 {
        enter := true;
        ClearFlag(trapFlags);
        trapFlags := trapFlags & !TRAP_FLAG_STEP_INSTRUCTION;
      }
      temp := temp.(address := 0);
    }

    method BeginTrap() returns (at: word)
      requires Valid()
      modifies this`trapFlags, this`listening
      ensures Valid()
      ensures State() == Quieten(old(State())) && at == TrapAddress(State())
    {
      listening := false;
      at := Wrap(Word(mem[sp], mem[Wrap(sp + 1)]) - 1);
      ClearFlag(trapFlags);
      trapFlags := trapFlags & !TRAP_FLAG_BREAK_HIT;
    }

    method ArriveFromTrap() returns (enter: bool, at: word)
      requires Valid()
      modifies this`trapFlags, this`temp, this`listening, mem, table, regs
      ensures Valid()
      ensures State() == Arrive(old(State()))
      ensures enter == Reports(old(State())) && at == TrapAddress(old(State()))
    {
      at := BeginTrap();
      enter := true;
      if temp.address != 0 && temp.address == at {
        enter := UndoTemporary();
      }
      if enter {
        RetireBreakpoints(at);
      }
      Latch(at);
    }

    method Latch(at: word)
      requires Valid()
      modifies regs
      ensures Valid()
      ensures State() == old(State()).(regs := LatchRegisters(old(State()), at))
    {
      regs[REGISTERS_PC] := at;
      regs[REGISTERS_SP] := Wrap(sp + 2);
      regs[REGISTERS_IY] := frame[0];
      regs[REGISTERS_IX] := frame[1];
      regs[REGISTERS_HL] := frame[2];
      regs[REGISTERS_DE] := frame[3];
      regs[REGISTERS_BC] := frame[4];
      regs[REGISTERS_AF] := frame[5];
    }

    method PlantBreakpoint(i: Slot, pc: word)
      requires Valid()
      modifies this`trapFlags, this`trapRestoreIdx, mem, table
      ensures Valid()
      ensures (mem[..], table[i]) == PlantOne(old(mem[..]), old(table[i]), pc)
      ensures table[..] == old(table[..])[i := table[i]]
      ensures var here := old(table[i].address) != 0 && old(table[i].address) == pc;
        && trapRestoreIdx == (if here then i else old(trapRestoreIdx))
        && FlagsOf(trapFlags) == FlagsOf(old(trapFlags)).(restore := FlagsOf(old(trapFlags)).restore || here)
    {
      if table[i].address != 0 {
        if table[i].address == pc {
          trapRestoreIdx := i;
          SetFlag(trapFlags);
          trapFlags := trapFlags | TRAP_FLAG_RESTORE_RST08H;
        } else {
          table[i] := table[i].(original := mem[table[i].address]);
          mem[table[i].address] := RST08;
        }
      }
    }

    method PlantBreakpoints()
      requires Valid()
      modifies this`trapFlags, this`trapRestoreIdx, mem, table
      ensures Valid()
      ensures State() == PlantTable(old(State()))
    {
      ghost var m, t, was := mem[..], table[..], FlagsOf(trapFlags);
      var pc := regs[REGISTERS_PC];
      var i := 0;
      while i < MAX_BREAKPOINTS_COUNT
        invariant Valid() && 0 <= i <= MAX_BREAKPOINTS_COUNT
        invariant Plant(m, t, pc, i) == (mem[..], table[..])
        invariant trapRestoreIdx == Deferred(t, pc, i, old(trapRestoreIdx))
        invariant forall j :: i <= j < MAX_BREAKPOINTS_COUNT ==> table[j] == t[j]
        invariant FlagsOf(trapFlags) == was.(restore := was.restore || Holds(t, pc, i))
      {
        PlantBreakpoint(i, pc);
        HoldsStep(t, t[i], pc, i);
        assert t[i := t[i]] == t;
        i := i + 1;
      }
    }

    method SaveFrame()
      requires Valid()
      modifies frame
      ensures Valid()
      ensures State() == old(State()).(frame := FrameOf(regs[..]))
    {
      frame[0] := regs[REGISTERS_IY];
      frame[1] := regs[REGISTERS_IX];
      frame[2] := regs[REGISTERS_HL];
      frame[3] := regs[REGISTERS_DE];
      frame[4] := regs[REGISTERS_BC];
      frame[5] := regs[REGISTERS_AF];
    }

    method SetResume(at: word)
      requires Valid()
      modifies this`listening, mem
      ensures Valid()
      ensures State() == SetReturn(old(State()), at)
    {
      var resume := at;
      if regs[REGISTERS_PC] != at {
        resume := regs[REGISTERS_PC];
      } else if trapFlags & TRAP_FLAG_BREAK_HIT == 0 {
        resume := Wrap(at + 1);
      }
      mem[sp] := Low(resume);
      mem[Wrap(sp + 1)] := High(resume);
      listening := true;
    }

    method LeaveToDebuggee(enter: bool, at: word)
      requires Valid()
      modifies this`trapFlags, this`temp, this`trapRestoreIdx, this`listening, mem, table, frame
      ensures Valid()
      ensures State() == Leave(old(State()), enter, at)
    {
      SaveFrame();
      if enter {
        PlantBreakpoints();
      }
      PlantTemporary();
      SetResume(at);
    }

    method PlantTemporary()
      requires Valid()
      modifies this`trapFlags, this`temp, mem
      ensures Valid()
      ensures State() == ArmTemporary(old(State()))
    {
      if trapFlags & TRAP_FLAG_STEP_INSTRUCTION != 0 || trapFlags & TRAP_FLAG_RESTORE_RST08H != 0 {
        var next := temp.address;
        if trapFlags & TRAP_FLAG_FORCE_ADDRESS == 0 {
          next := CalculateStep(mem[..], regs[..]);
        }
        ClearFlag(trapFlags);
        trapFlags := trapFlags & !TRAP_FLAG_FORCE_ADDRESS;
        temp := Breakpoint(next, mem[next]);
        mem[next] := RST08;
      }
    }

    /** The Ctrl-C part of the IM 1 interrupt entry. */
    method Interrupt(pc: word)
      requires Valid()
      modifies this`trapFlags, this`temp, this`listening, mem
      ensures Valid()
      ensures State() == CtrlC(old(State()), pc)
    {
      if listening {
        listening := false;
        temp := Breakpoint(pc, mem[pc]);
        mem[pc] := RST08;
        SetFlag(trapFlags);
        trapFlags := trapFlags | TRAP_FLAG_STEP_INSTRUCTION;
      }
    }
  }
}
