/** Resuming end to end: plant, decode, let the CPU run one instruction, trap,
    retire. */
module SingleStep {
  import opened Machine
  import opened GdbState
  import opened Rst8
  import opened Commands
  import opened TableProofs
  import opened Session
  import opened Transparency
  import opened Z80Decode
  import Z80Agreement
  import M = Z80Manual

  /** The registers the debuggee resumes with. The stub does not write SP back. */
  function ResumedCpu(s: Stub): M.Cpu {
    M.Cpu(s.frame[5], s.frame[4], s.frame[2], Wrap(s.sp + 2), s.frame[1], s.frame[0])
  }

  /** The architectural successor of the instruction at the PC. */
  function Target(w: World): word {
    M.Successor(w.logical, Z80Agreement.CpuOf(w.stub.regs), w.stub.regs[REGISTERS_PC])
  }

  /** The state in which the temporary breakpoint is placed. */
  function Resuming(w: World, c: Command): Stub {
    Planted(Apply(w.stub, c))
  }

  /** `c` stops at the next instruction, to report or to plant a breakpoint. */
  ghost predicate Steps(w: World, c: Command) {
    c.Step? || (c.Continue? && Holds(w.stub.table, w.stub.regs[REGISTERS_PC], MAX_BREAKPOINTS_COUNT))
  }

  /** A byte of the return word does not look like a breakpoint. */
  predicate Plain(w: World, a: word, v: byte) {
    && !InVector(a)
    && (v == RST08 && Holds(w.stub.table, a, MAX_BREAKPOINTS_COUNT) && a != w.stub.regs[REGISTERS_PC]
        ==> w.logical[a] == RST08)
  }

  /** The CPU that the registers GDB sees describe. */
  function SeenCpu(w: World): M.Cpu {
    Z80Agreement.CpuOf(w.stub.regs)
  }

  /** The bytes that decide where the instruction at the PC goes. */
  predicate Decisive(w: World, a: word) {
    M.InFootprint(w.logical, SeenCpu(w), w.stub.regs[REGISTERS_PC], a)
  }

  /** The stub finds the successor of the instruction at the PC and can put a
      breakpoint there: the instruction is documented and not JP (IX)/(IY); it
      is the one that execution resumes at; the successor is neither 0 nor on
      the trap vector, which rules out RST 08, nor in the return word; no
      breakpoint lies on the vector; and the breakpoints and the return word
      keep clear of the bytes that decide where the instruction goes. */
  ghost predicate Placeable(w: World)
    requires w.phase.Stopped?
  {
    var s := w.stub;
    var pc, next := s.regs[REGISTERS_PC], Target(w);
    && M.Documented(w.logical, pc) && !M.IsJumpIndex(w.logical, pc)
    && ResumeAddress(s, w.phase.at) == pc
    && Plain(w, s.sp, Low(pc)) && Plain(w, Inc(s.sp), High(pc))
    && (forall i: Slot :: !InVector(s.table[i].address))
    && next != 0 && !InVector(next) && next !in WordSet(s.sp)
    && forall a: word :: Decisive(w, a) ==>
         (Holds(s.table, a, MAX_BREAKPOINTS_COUNT) ==> a == pc) && a !in WordSet(s.sp)
  }

  /** The breakpoint put there does not change the instruction itself. */
  predicate Spared(w: World) {
    Decisive(w, Target(w)) ==> w.logical[Target(w)] == RST08
  }

  /** The instruction is a return that is taken. */
  predicate Returns(w: World) {
    M.IsReturn(w.logical, SeenCpu(w), w.stub.regs[REGISTERS_PC])
  }

  /** And the CPU goes there too: the breakpoint is not on the instruction, and
      GDB has not moved SP under a return. */
  ghost predicate Steppable(w: World)
    requires w.phase.Stopped?
  {
    Placeable(w) && Spared(w) && (Returns(w) ==> w.stub.regs[REGISTERS_SP] == Wrap(w.stub.sp + 2))
  }

  /** Planting the table leaves the instruction's bytes alone, so the decoder
      finds the architectural successor. */
  lemma StepTargetIsSuccessor(w: World, c: Command)
    requires Inv(w) && w.phase.Stopped? && Placeable(w) && Steps(w, c)
    ensures var s := Resuming(w, c);
      && StepTarget(s) == Target(w)
      && M.SameFootprint(w.logical, s.mem, SeenCpu(w), s.regs[REGISTERS_PC])
      && s.regs == w.stub.regs && (s.flags.step || s.flags.restore) && !s.flags.force
  {
    hide NextPc, M.Successor, M.Documented, M.InFootprint, M.IsReturn, Plain, HarmlessWord;
    var s := Resuming(w, c);
    var pc, cpu := w.stub.regs[REGISTERS_PC], SeenCpu(w);
    PlantedUnder(Apply(w.stub, c), w.logical);
    forall a: word | M.InFootprint(w.logical, cpu, pc, a)
      ensures s.mem[a] == w.logical[a]
    {
      assert Decisive(w, a);
      LiveHolds(s, a);
      HoldsBelow(s.table, w.stub.table, a, MAX_BREAKPOINTS_COUNT);
    }
    M.SuccessorDependsOnFootprint(w.logical, s.mem, cpu, pc);
    M.FootprintBytes(w.logical, s.mem, cpu, pc);
    JumpIndexOnFootprint(w.logical, s.mem, cpu, pc);
    Z80Agreement.StepIsArchitectural(s.mem, s.regs, pc);
  }

  lemma JumpIndexOnFootprint(m: Memory, m': Memory, cpu: M.Cpu, pc: word)
    requires M.SameFootprint(m, m', cpu, pc)
    ensures M.IsJumpIndex(m', pc) == M.IsJumpIndex(m, pc)
  {
    M.FootprintBytes(m, m', cpu, pc);
  }

  lemma PlainIsHarmless(w: World, c: Command, a: word, v: byte)
    requires Inv(w) && w.phase.Stopped? && Steps(w, c) && Plain(w, a, v)
    requires a != StepTarget(Resuming(w, c)) && !Apply(w.stub, c).flags.force
    ensures Harmless(ArmTemporary(Resuming(w, c)), a, v)
  {
    hide StepTarget;
    var s := Resuming(w, c);
    PlantedUnder(Apply(w.stub, c), w.logical);
    assert Live(ArmTemporary(s)) == Live(s);
    HoldsBelow(s.table, w.stub.table, a, MAX_BREAKPOINTS_COUNT);
    LiveHolds(s, a);
    if !Holds(Live(s), a, MAX_BREAKPOINTS_COUNT) {
      ShownWithoutHolder(Live(s), a, MAX_BREAKPOINTS_COUNT);
    }
  }

  /** So such a resumption makes true what the session assumes of it. */
  lemma StepIsAssumed(w: World, c: Command)
    requires Inv(w) && w.phase.Stopped? && Placeable(w) && Steps(w, c)
    ensures Assumed(w, Obey(c))
  {
    hide StepTarget, M.Successor, M.Documented, M.IsReturn, PlantTable, Harmless, Plain, Decisive, Low, High;
    StepTargetIsSuccessor(w, c);
    PlantedUnder(Apply(w.stub, c), w.logical);
    var s, pc := w.stub, w.stub.regs[REGISTERS_PC];
    assert ResumeAddress(Resuming(w, c), w.phase.at) == pc;
    PlainIsHarmless(w, c, s.sp, Low(pc));
    PlainIsHarmless(w, c, Inc(s.sp), High(pc));
  }

  /** The temporary breakpoint is at the successor, and execution resumes at
      the PC. */
  lemma TemporaryIsPlaced(w: World, c: Command)
    requires Inv(w) && w.phase.Stopped? && Placeable(w) && Steps(w, c)
    ensures var s := Next(w, Obey(c)).stub;
      && s.temp.address == Target(w) && Armed(s) && s.flags.step == c.Step?
      && WordAt(s.mem, s.sp) == w.stub.regs[REGISTERS_PC]
      && s.frame == FrameOf(w.stub.regs) && s.sp == w.stub.sp
  {
    hide Target, Placeable, StepTarget, M.Successor, SetWord, PlantTable;
    StepTargetIsSuccessor(w, c);
    PlantedUnder(Apply(w.stub, c), w.logical);
    ResumedAtPc(w);
    WordAtSetWord(ArmTemporary(Resuming(w, c)).mem, w.stub.sp, w.stub.regs[REGISTERS_PC]);
  }

  lemma ResumedAtPc(w: World)
    requires w.phase.Stopped? && Placeable(w)
    ensures ResumeAddress(w.stub, w.phase.at) == w.stub.regs[REGISTERS_PC] && Target(w) != 0
  {
  }

  /** Where the stub puts the temporary breakpoint is where the CPU goes, on
      the memory GDB saw and on the patched memory alike. */
  lemma StepGoesToSuccessor(w: World, c: Command)
    requires Inv(w) && w.phase.Stopped? && Steppable(w) && Steps(w, c)
    ensures var s := Next(w, Obey(c)).stub;
      && s.temp.address == Target(w)
      && M.Successor(s.mem, ResumedCpu(s), WordAt(s.mem, s.sp)) == Target(w)
      && WordAt(s.mem, s.sp) == w.stub.regs[REGISTERS_PC]
      && s.flags.step == c.Step? && Armed(s)
  {
    hide Target, Placeable, Spared, Returns, M.Successor, AfterCommand;
    TemporaryIsPlaced(w, c);
    ResumedGoesExactly(w, c);
    ReturnWordSpared(w, c);
  }

  /** The bytes that decide where the instruction goes, as the CPU sees them. */
  lemma FootprintSeen(w: World, c: Command)
    requires Inv(w) && w.phase.Stopped? && Placeable(w) && Steps(w, c)
    ensures forall a: word :: Decisive(w, a) ==>
              Next(w, Obey(c)).stub.mem[a] == if a == Target(w) then RST08 else w.logical[a]
  {
    hide StepTarget, Target, M.InFootprint, M.IsReturn, M.Documented, PlantTable, Low, High, Plain;
    StepTargetIsSuccessor(w, c);
    PlantedUnder(Apply(w.stub, c), w.logical);
  }

  /** The patches leave the bytes that decide where the instruction goes alone
      exactly if its successor is none of them, or is RST 08 already. */
  lemma PatchesSpareExactly(w: World, c: Command)
    requires Inv(w) && w.phase.Stopped? && Placeable(w) && Steps(w, c)
    ensures M.SameFootprint(w.logical, Next(w, Obey(c)).stub.mem, SeenCpu(w), w.stub.regs[REGISTERS_PC])
            <==> Spared(w)
  {
    hide Target, Placeable, AfterCommand, M.InFootprint;
    FootprintSeen(w, c);
    assert Decisive(w, Target(w)) ==> M.InFootprint(w.logical, SeenCpu(w), w.stub.regs[REGISTERS_PC], Target(w));
  }

  /** The CPU that resumes has its own SP, which only a return looks at: it
      goes to the breakpoint exactly if the instruction is no return that is
      taken, or finds there the word that GDB's SP points at. */
  lemma ResumedGoesExactly(w: World, c: Command)
    requires Inv(w) && w.phase.Stopped? && Placeable(w) && Steps(w, c) && Spared(w)
    ensures var s := Next(w, Obey(c)).stub;
      M.Successor(s.mem, ResumedCpu(s), w.stub.regs[REGISTERS_PC]) == Target(w)
      <==> (Returns(w) ==> WordAt(s.mem, Wrap(w.stub.sp + 2)) == WordAt(w.logical, w.stub.regs[REGISTERS_SP]))
  {
    hide M.Successor, M.InFootprint, M.IsReturn, Placeable, Spared, AfterCommand;
    var s, pc, cpu := Next(w, Obey(c)).stub, w.stub.regs[REGISTERS_PC], SeenCpu(w);
    TemporaryIsPlaced(w, c);
    PatchesSpareExactly(w, c);
    M.SuccessorDependsOnFootprint(w.logical, s.mem, cpu, pc);
    M.ReturnDependsOnFootprint(w.logical, s.mem, cpu, pc);
    M.SuccessorBySp(w.logical, cpu, pc, cpu.sp);
    assert ResumedCpu(s) == cpu.(sp := Wrap(w.stub.sp + 2));
    M.SuccessorBySp(s.mem, cpu, pc, Wrap(w.stub.sp + 2));
  }

  /** With SP as the trap found it the two words are one. */
  lemma ReturnWordSpared(w: World, c: Command)
    requires Inv(w) && w.phase.Stopped? && Steppable(w) && Steps(w, c)
    ensures Returns(w) ==>
      WordAt(Next(w, Obey(c)).stub.mem, Wrap(w.stub.sp + 2)) == WordAt(w.logical, w.stub.regs[REGISTERS_SP])
  {
    hide Placeable, Spared, AfterCommand, M.IsReturn, M.Length;
    PatchesSpareExactly(w, c);
    M.FootprintBytes(w.logical, Next(w, Obey(c)).stub.mem, SeenCpu(w), w.stub.regs[REGISTERS_PC]);
  }

  /** The resumption, the instruction's stores and the arrival at the
      successor: execution traps there. */
  lemma StepArrives(w: World, c: Command, es: seq<Event>, e: Event)
    requires Inv(w) && w.phase.Stopped? && Steppable(w) && Steps(w, c)
    requires AreStores(es) && IsRun(Next(w, Obey(c)), es)
    requires e.Trap? && e.at == Target(w) && Undisturbed(After(Next(w, Obey(c)), es), e)
    ensures var w1 := Next(w, Obey(c));
      M.Successor(w1.stub.mem, ResumedCpu(w1.stub), WordAt(w1.stub.mem, w1.stub.sp)) == e.at
    ensures var w1 := Next(w, Obey(c));
      var v := After(w1, es);
      && Inv(v) && v.phase.Running? && Armed(v.stub) && v.stub.flags.step == c.Step?
      && v.stub.table == w1.stub.table && v.stub.restoreIdx == w1.stub.restoreIdx && v.stub.flags == w1.stub.flags
      && v.logical == StoreAll(SetWord(w.logical, w.stub.sp, w.stub.regs[REGISTERS_PC]), es)
      && Possible(v, e) && Assumed(v, e)
  {
    hide Target, Placeable, Decisive, Undisturbed, TrapIsHarmless, M.Successor, SetWord, HarmlessWord, RunningInv, Leave;
    var w1 := Next(w, Obey(c));
    var v := After(w1, es);
    StepIsAssumed(w, c);
    StepGoesToSuccessor(w, c);
    StepKeeps(w, Obey(c));
    RunKeeps(w1, es);
    StoresTouchMemoryOnly(w1, es);
    ResumesAtPc(w, c);
    TrapIsPossible(v, e);
  }

  lemma ResumesAtPc(w: World, c: Command)
    requires w.phase.Stopped? && Resumes(c) && Placeable(w)
    ensures Next(w, Obey(c)).logical == SetWord(w.logical, w.stub.sp, w.stub.regs[REGISTERS_PC])
  {
  }

  lemma TrapIsPossible(v: World, e: Event)
    requires Inv(v) && v.phase.Running? && Armed(v.stub)
    requires e.Trap? && e.at == v.stub.temp.address && Undisturbed(v, e)
    ensures Possible(v, e) && Assumed(v, e)
  {
    PushKeeps(v, e);
  }

  /** The trap at an armed step's temporary breakpoint. */
  lemma StepTrap(v: World, e: Event)
    requires Inv(v) && v.phase.Running? && Armed(v.stub) && v.stub.flags.step
    requires e.Trap? && e.at == v.stub.temp.address && Undisturbed(v, e)
    ensures Possible(v, e) && Assumed(v, e)
    ensures Next(v, e).phase == Stopped(e.at)
    ensures Next(v, e).stub.regs[REGISTERS_PC] == e.at
    ensures Next(v, e).stub.mem == Next(v, e).logical == SetWord(v.logical, e.slot, Inc(e.at))
  {
    hide Push, Arrive, Leave, SetWord, RunningInv, HarmlessWord, Undisturbed, Vectored;
    TrapIsPossible(v, e);
    PushTraps(v.stub, e);
    StopsAtTrap(Push(v.stub, e));
    TrapKeeps(v, e);
  }

  /** `i` arms the step at the given distance from the PC, whatever the
      instruction there is. With `StepTrap`, the trap there is reported. */
  lemma StepOverGoesTo(w: World, offset: byte)
    requires Inv(w) && w.phase.Stopped? && Assumed(w, Obey(StepOver(offset)))
    ensures var w1 := Next(w, Obey(StepOver(offset)));
      && w1.phase.Running? && Inv(w1)
      && w1.stub.temp.address == Wrap(w.stub.regs[REGISTERS_PC] + offset as int)
      && w1.stub.flags.step && Armed(w1.stub) && !w1.stub.flags.force
  {
    hide PlantTable, HarmlessWord, SetWord, RunningInv, OffVector, Vectored;
    PlantedUnder(Apply(w.stub, StepOver(offset)), w.logical);
    ResumeKeeps(w, StepOver(offset));
  }

  /** After `s` the debuggee executes one instruction: it stores what it
      stores and arrives at the architectural successor. There it traps, the
      trap is shown to GDB with that PC, and memory is what the program itself
      made of it, the word under its stack pointer apart. */
  lemma StepStopsAtSuccessor(w: World, es: seq<Event>, e: Event)
    requires Inv(w) && w.phase.Stopped? && Steppable(w)
    requires AreStores(es) && IsRun(Next(w, Obey(Step)), es)
    requires e.Trap? && e.at == Target(w) && Undisturbed(After(Next(w, Obey(Step)), es), e)
    ensures var w1 := Next(w, Obey(Step));
      M.Successor(w1.stub.mem, ResumedCpu(w1.stub), WordAt(w1.stub.mem, w1.stub.sp)) == e.at
    ensures var v := After(Next(w, Obey(Step)), es);
      && Possible(v, e)
      && Next(v, e).phase == Stopped(e.at)
      && Next(v, e).stub.regs[REGISTERS_PC] == e.at
      && Next(v, e).stub.mem == Next(v, e).logical
      && Next(v, e).logical ==
           SetWord(StoreAll(SetWord(w.logical, w.stub.sp, w.stub.regs[REGISTERS_PC]), es), e.slot, Inc(e.at))
  {
    hide Target, Steppable, Undisturbed, Assumed, Inv, SetWord, AfterTrap, AfterCommand, M.Successor;
    StepArrives(w, Step, es, e);
    TemporaryIsTarget(w, Step, es);
    StepTrap(After(Next(w, Obey(Step)), es), e);
  }

  lemma TemporaryIsTarget(w: World, c: Command, es: seq<Event>)
    requires Inv(w) && w.phase.Stopped? && Steppable(w) && Steps(w, c)
    requires AreStores(es) && IsRun(Next(w, Obey(c)), es)
    ensures After(Next(w, Obey(c)), es).stub.temp.address == Target(w)
  {
    StepGoesToSuccessor(w, c);
    StoresTouchMemoryOnly(Next(w, Obey(c)), es);
  }

  /** After `c` off a breakpoint the debuggee executes one instruction and
      traps at its architectural successor. GDB hears nothing; the breakpoint
      it left is now in memory, with the byte it covers; nothing is armed or
      pending; and execution goes on at the successor. */
  lemma ContinueStepsOff(w: World, es: seq<Event>, e: Event)
    requires Inv(w) && w.phase.Stopped? && Steppable(w) && Steps(w, Continue)
    requires AreStores(es) && IsRun(Next(w, Obey(Continue)), es)
    requires e.Trap? && e.at == Target(w) && Undisturbed(After(Next(w, Obey(Continue)), es), e)
    ensures var w1 := Next(w, Obey(Continue));
      M.Successor(w1.stub.mem, ResumedCpu(w1.stub), WordAt(w1.stub.mem, w1.stub.sp)) == e.at
    ensures var v, pc := After(Next(w, Obey(Continue)), es), w.stub.regs[REGISTERS_PC];
      && Possible(v, e)
      && var u := Next(v, e);
      && Inv(u) && u.phase.Running?
      && !Armed(u.stub) && !u.stub.flags.step && !u.stub.flags.restore
      && WordAt(u.stub.mem, u.stub.sp) == e.at
      && Holds(u.stub.table, pc, MAX_BREAKPOINTS_COUNT)
      && (pc !in WordSet(e.slot) ==>
            && u.stub.mem[pc] == RST08 && pc !in u.overwritten
            && exists i: Slot :: u.stub.table[i] == Breakpoint(pc, u.logical[pc]))
  {
    hide Target, Steppable, Undisturbed, Assumed, RunningInv, SetWord, AfterTrap, Leave, M.Successor;
    StepArrives(w, Continue, es, e);
    ContinueRestores(w);
    var v := After(Next(w, Obey(Continue)), es);
    WaitingEntryIsPlanted(v, e);
    TrapKeeps(v, e);
    SilentReturn(v, e);
  }

  lemma ContinueRestores(w: World)
    requires Inv(w) && w.phase.Stopped? && Steps(w, Continue)
    ensures var s := Next(w, Obey(Continue)).stub;
      s.flags.restore && !s.flags.step && s.table[s.restoreIdx].address == w.stub.regs[REGISTERS_PC]
  {
    PlantedUnder(w.stub, w.logical);
  }

  lemma SilentReturn(v: World, e: Event)
    requires Inv(v) && v.phase.Running? && v.stub.flags.restore && !v.stub.flags.step
    requires e.Trap? && Possible(v, e) && Assumed(v, e)
    ensures var u := Next(v, e);
      && u.phase.Running? && !Armed(u.stub) && !u.stub.flags.step && !u.stub.flags.restore
      && WordAt(u.stub.mem, u.stub.sp) == e.at
  {
    hide Low, High, Uncoverable, HarmlessWord;
    PushKeeps(v, e);
    var s := Push(v.stub, e);
    SilentState(s, e.at);
    StopsAtTrap(s);
    ArriveKeepsSp(s);
    WordAtSetWord(RetireTemporary(Quieten(s)).mem, s.sp, e.at);
  }

  // ---- registers ----

  /** The PC that the last register command leaves. */
  function LastPc(cs: seq<Command>, pc: word): word {
    if cs == [] then pc
    else
      var c := cs[|cs| - 1];
      if c.SetRegister? && c.i == REGISTERS_PC then c.v
      else if c.SetRegisters? then c.all[REGISTERS_PC]
      else LastPc(cs[..|cs| - 1], pc)
  }

  /** `c` leaves the CPU's registers as they are in `regs`, as `g` does. */
  predicate LeavesRegisters(regs: Registers, c: Command) {
    match c
    case SetRegister(i, v) => i >= SLOT_0 || v == regs[i]
    case SetRegisters(all) => all[..SLOT_0] == regs[..SLOT_0]
    case _ => true
  }

  lemma {:induction false} DialogueRegisters(s: Stub, cs: seq<Command>)
    ensures var s' := ApplyAll(s, cs);
      && s'.sp == s.sp && s'.flags.hit == s.flags.hit
      && s'.regs[REGISTERS_PC] == LastPc(cs, s.regs[REGISTERS_PC])
      && ((forall i :: 0 <= i < |cs| ==> LeavesRegisters(s.regs, cs[i])) ==> s'.regs[..SLOT_0] == s.regs[..SLOT_0])
  {
    if cs != [] {
      var n := |cs| - 1;
      DialogueRegisters(s, cs[..n]);
      ApplyRegisters(ApplyAll(s, cs[..n]), cs[n], s.regs);
    }
  }

  lemma ApplyRegisters(s: Stub, c: Command, regs: Registers)
    ensures var s' := Apply(s, c);
      && s'.sp == s.sp && s'.flags.hit == s.flags.hit
      && s'.regs[REGISTERS_PC] == LastPc([c], s.regs[REGISTERS_PC])
      && (LeavesRegisters(regs, c) && s.regs[..SLOT_0] == regs[..SLOT_0] ==> s'.regs[..SLOT_0] == regs[..SLOT_0])
  {
    var s' := Apply(s, c);
    if c.SetRegister? && LeavesRegisters(regs, c) && s.regs[..SLOT_0] == regs[..SLOT_0] {
      assert c.i < SLOT_0 ==> regs[..SLOT_0][c.i] == s.regs[..SLOT_0][c.i];
      assert forall k :: 0 <= k < SLOT_0 ==> s'.regs[..SLOT_0][k] == s.regs[..SLOT_0][k];
    }
  }

  /** Resuming pops what the trap pushed, and goes where it should, after any
      dialogue: to the PC that GDB set last; else back to the trap's address
      after a breakpoint or a step; else behind the RST 08 that the program
      itself contains. Without a command that changes registers the six words
      are the program's own. */
  lemma FrameSurvives(s: Stub, cs: seq<Command>)
    requires Dialogue(cs, Reports(s))
    ensures var at := TrapAddress(s);
      var s' := Leave(ApplyAll(Arrive(s), cs), Reports(s), at);
      WordAt(s'.mem, s'.sp) ==
        if LastPc(cs, at) != at then LastPc(cs, at)
        else if AtTemporary(s) || Holds(Arrive(s).table, at, MAX_BREAKPOINTS_COUNT) then at
        else Inc(at)
    ensures (forall i :: 0 <= i < |cs| ==> LeavesRegisters(Arrive(s).regs, cs[i])) ==>
      var at := TrapAddress(s);
      Leave(ApplyAll(Arrive(s), cs), Reports(s), at).frame == s.frame
  {
    hide ApplyAll, Arrive, Leave, Reports, AtTemporary, Holds, TrapAddress, Dialogue, LastPc, LeavesRegisters;
    var at := TrapAddress(s);
    DialogueRegisters(Arrive(s), cs);
    StopsAtTrap(s);
    ArriveHits(s);
    LeaveReturns(ApplyAll(Arrive(s), cs), Reports(s), at);
    FrameOfSame(ApplyAll(Arrive(s), cs).regs, Arrive(s).regs);
  }

  lemma ArriveHits(s: Stub)
    ensures Arrive(s).flags.hit <==>
            AtTemporary(s) || Holds(Arrive(s).table, TrapAddress(s), MAX_BREAKPOINTS_COUNT)
    ensures FrameOf(Arrive(s).regs) == s.frame
  {
  }

  lemma LeaveReturns(s: Stub, reported: bool, at: word)
    ensures var s' := Leave(s, reported, at);
      WordAt(s'.mem, s'.sp) == ResumeAddress(s, at) && s'.frame == FrameOf(s.regs)
  {
    hide Low, High, StepTarget;
    var s1 := s.(frame := FrameOf(s.regs));
    var s2 := ArmTemporary(if reported then PlantTable(s1) else s1);
    WordAtSetWord(s2.mem, s2.sp, ResumeAddress(s, at));
  }

  lemma FrameOfSame(regs: Registers, regs': Registers)
    ensures regs[..SLOT_0] == regs'[..SLOT_0] ==> FrameOf(regs) == FrameOf(regs')
  {
    if regs[..SLOT_0] == regs'[..SLOT_0] {
      assert forall k :: 0 <= k < SLOT_0 ==> regs[k] == regs[..SLOT_0][k] && regs'[k] == regs'[..SLOT_0][k];
    }
  }
}
