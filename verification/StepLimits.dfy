/** Where a step is not one instruction. */
module StepLimits {
  import opened Machine
  import opened GdbState
  import opened Rst8
  import opened Commands
  import opened TableProofs
  import opened Session
  import opened Transparency
  import opened SingleStep
  import opened Z80Decode
  import Z80Agreement
  import M = Z80Manual
  import P = Z80Patched

  // ---- an instruction that goes to one of its own bytes ----

  /** The CPU goes where the temporary breakpoint is exactly if that is not on
      a byte of the instruction that it changes; unless GDB has moved SP under
      a return. */
  lemma StepGoesExactly(w: World, c: Command)
    requires Inv(w) && w.phase.Stopped? && Placeable(w) && Steps(w, c)
    requires Returns(w) ==> w.stub.regs[REGISTERS_SP] == Wrap(w.stub.sp + 2)
    ensures var s := Next(w, Obey(c)).stub;
      && s.temp.address == Target(w)
      && (M.Successor(s.mem, ResumedCpu(s), w.stub.regs[REGISTERS_PC]) == Target(w) <==> Spared(w))
  {
    hide Placeable, AfterCommand, M.Successor, M.IsReturn, M.InFootprint, M.Documented, M.IsJumpIndex;
    TemporaryIsPlaced(w, c);
    if Spared(w) {
      ResumedGoesExactly(w, c);
      ReturnWordSpared(w, c);
    } else {
      var s, pc, cpu := Next(w, Obey(c)).stub, w.stub.regs[REGISTERS_PC], SeenCpu(w);
      PlaceableIsDocumented(w);
      P.PatchedGoesElsewhere(w.logical, cpu, pc);
      PatchedAsSeen(w, c);
      var m' := w.logical[Target(w) := RST08];
      M.SuccessorDependsOnFootprint(m', s.mem, cpu, pc);
      M.ReturnDependsOnFootprint(m', s.mem, cpu, pc);
      assert ResumedCpu(s) == cpu.(sp := Wrap(w.stub.sp + 2));
      M.SuccessorBySp(s.mem, cpu, pc, Wrap(w.stub.sp + 2));
    }
  }

  lemma PlaceableIsDocumented(w: World)
    requires w.phase.Stopped? && Placeable(w)
    ensures var pc := w.stub.regs[REGISTERS_PC];
      M.Documented(w.logical, pc) && !M.IsJumpIndex(w.logical, pc) && Target(w) != 0x0008
  {
  }

  /** On the instruction the CPU sees the logical memory with the temporary
      breakpoint in it. */
  lemma PatchedAsSeen(w: World, c: Command)
    requires Inv(w) && w.phase.Stopped? && Placeable(w) && Steps(w, c) && !Spared(w)
    ensures M.SameFootprint(w.logical[Target(w) := RST08], Next(w, Obey(c)).stub.mem, SeenCpu(w), w.stub.regs[REGISTERS_PC])
  {
    hide AfterCommand, Placeable, Target, M.InFootprint, M.Documented, M.IsJumpIndex;
    var pc, m' := w.stub.regs[REGISTERS_PC], w.logical[Target(w) := RST08];
    PlaceableIsDocumented(w);
    TargetIs(w);
    FootprintSeen(w, c);
    forall a: word | M.InFootprint(m', SeenCpu(w), pc, a)
      ensures Decisive(w, a)
    {
      P.PatchedFootprint(w.logical, SeenCpu(w), pc, a);
    }
  }

  lemma TargetIs(w: World)
    ensures Target(w) == M.Successor(w.logical, SeenCpu(w), w.stub.regs[REGISTERS_PC])
  {
  }

  // ---- an instruction that goes to itself ----

  /** Execution resumes on RST 08 exactly if the instruction's target is the
      instruction itself: then its own temporary breakpoint stands in its place. */
  lemma ResumesOnPatchExactly(w: World, c: Command)
    requires Inv(w) && w.phase.Stopped? && Steps(w, c) && Assumed(w, Obey(c))
    requires var pc := w.stub.regs[REGISTERS_PC];
      ResumeAddress(w.stub, w.phase.at) == pc && pc !in WordSet(w.stub.sp) && w.logical[pc] != RST08
    ensures var s, pc := Next(w, Obey(c)).stub, w.stub.regs[REGISTERS_PC];
      && WordAt(s.mem, s.sp) == pc
      && (s.mem[pc] == RST08 <==> StepTarget(Resuming(w, c)) == pc)
  {
    hide StepTarget, SetWord, PlantTable, HarmlessWord, OffVector;
    var s, pc := Resuming(w, c), w.stub.regs[REGISTERS_PC];
    PlantedUnder(Apply(w.stub, c), w.logical);
    LiveHolds(s, pc);
    HoldsBelow(s.table, w.stub.table, pc, MAX_BREAKPOINTS_COUNT);
    WordAtSetWord(ArmTemporary(s).mem, s.sp, pc);
    OffWord(ArmTemporary(s).mem, s.sp, pc, pc);
  }

  lemma OffWord(m: Memory, slot: word, v: word, a: word)
    requires a !in WordSet(slot)
    ensures SetWord(m, slot, v)[a] == m[a]
  {
  }

  /** The trap that happens at once, before any instruction. */
  function TrapAtOnce(w: World): Event {
    Trap(WordAt(w.stub.mem, w.stub.sp), w.stub.sp, w.stub.frame)
  }

  /** `s` on an instruction that goes to itself: the next stop is at the same
      PC with the same registers, and the instruction has not run. */
  lemma SelfStepRepeats(w: World)
    requires Inv(w) && w.phase.Stopped? && Placeable(w) && Target(w) == w.stub.regs[REGISTERS_PC]
    requires Undisturbed(Next(w, Obey(Step)), TrapAtOnce(Next(w, Obey(Step))))
    ensures var w1, pc := Next(w, Obey(Step)), w.stub.regs[REGISTERS_PC];
      var e := TrapAtOnce(w1);
      && Possible(w1, e)
      && var u := Next(w1, e);
      && u.phase == Stopped(pc) && u.stub.regs[REGISTERS_PC] == pc && u.stub.frame == FrameOf(w.stub.regs)
      && u.stub.mem == u.logical == SetWord(w1.logical, w.stub.sp, Inc(pc))
  {
    hide Target, Placeable, Undisturbed, AfterCommand, SetWord, Arrive, Leave, Inv, Push;
    var w1 := Next(w, Obey(Step));
    var e := TrapAtOnce(w1);
    StepIsAssumed(w, Step);
    StepKeeps(w, Obey(Step));
    TemporaryIsPlaced(w, Step);
    RunningAfter(w, Step);
    StepTrap(w1, e);
    FrameOfTrap(w1, e);
  }

  lemma RunningAfter(w: World, c: Command)
    requires w.phase.Stopped? && Resumes(c)
    ensures Next(w, Obey(c)).phase.Running?
  {
  }

  lemma FrameOfTrap(w: World, e: Event)
    requires e.Trap? && w.phase.Running? && AfterTrap(w, e).phase.Stopped?
    ensures AfterTrap(w, e).stub.frame == e.frame
  {
  }

  /** `c` off a breakpoint on such an instruction: a silent trap at once, and a
      second trap at once, which stops at the same breakpoint with the same
      registers. `c` never leaves it. */
  lemma SelfContinueRepeats(w: World)
    requires Inv(w) && w.phase.Stopped? && Placeable(w) && Target(w) == w.stub.regs[REGISTERS_PC]
    requires Steps(w, Continue)
    requires var w1 := Next(w, Obey(Continue));
      && var e := TrapAtOnce(w1);
      && Undisturbed(w1, e)
      && (Possible(w1, e) ==> HarmlessWord(Next(w1, e).stub, e.slot, Inc(e.at)))
    ensures var w1, pc := Next(w, Obey(Continue)), w.stub.regs[REGISTERS_PC];
      var e := TrapAtOnce(w1);
      && Possible(w1, e)
      && var w2 := Next(w1, e);
      && w2.phase.Running? && w2.stub.mem[pc] == RST08
      && TrapAtOnce(w2) == e && Possible(w2, e)
      && var u := Next(w2, e);
      && u.phase == Stopped(pc) && u.stub.regs[REGISTERS_PC] == pc && u.stub.frame == FrameOf(w.stub.regs)
      && u.stub.mem == u.logical
  {
    hide Target, Placeable, Undisturbed, AfterCommand, SetWord, Arrive, Leave, Inv, Push, HarmlessWord;
    var w1, pc := Next(w, Obey(Continue)), w.stub.regs[REGISTERS_PC];
    var e := TrapAtOnce(w1);
    StepIsAssumed(w, Continue);
    StepKeeps(w, Obey(Continue));
    TemporaryIsPlaced(w, Continue);
    RunningAfter(w, Continue);
    TrapIsPossible(w1, e);
    ContinueRestores(w);
    PcOffWord(w);
    WaitingEntryIsPlanted(w1, e);
    TrapKeeps(w1, e);
    SilentReturn(w1, e);
    SilentFrame(w1, e);
    FreeTrap(Next(w1, e), e);
  }

  lemma PcOffWord(w: World)
    requires w.phase.Stopped? && Placeable(w)
    ensures w.stub.regs[REGISTERS_PC] !in WordSet(w.stub.sp)
  {
    assert Decisive(w, w.stub.regs[REGISTERS_PC]);
  }

  lemma SilentFrame(w: World, e: Event)
    requires e.Trap? && w.phase.Running? && AfterTrap(w, e).phase.Running?
    ensures AfterTrap(w, e).stub.frame == e.frame && AfterTrap(w, e).stub.sp == e.slot
  {
    ArriveHits(Push(w.stub, e));
  }

  /** A trap with nothing armed. */
  lemma FreeTrap(w: World, e: Event)
    requires Inv(w) && w.phase.Running? && !Armed(w.stub) && !w.stub.flags.restore
    requires e.Trap? && w.stub.mem[e.at] == RST08 && HarmlessWord(w.stub, e.slot, Inc(e.at))
    ensures Possible(w, e)
    ensures var u := Next(w, e);
      && u.phase == Stopped(e.at) && u.stub.regs[REGISTERS_PC] == e.at && u.stub.frame == e.frame
      && u.stub.mem == u.logical
  {
    hide SetWord, Vectored, Uncoverable;
    PushKeeps(w, e);
    var s := Push(w.stub, e);
    ReportedTrap(s, SetWord(w.logical, e.slot, Inc(e.at)), w.overwritten + WordSet(e.slot));
    StopsAtTrap(s);
  }

  // ---- SP ----

  /** With SP as GDB sees it the decoder finds where a CPU with the SP `sp`
      goes, exactly if the instruction is not a return that is taken or the
      words at the two addresses agree. */
  lemma ReturnTargetExactly(m: Memory, regs: Registers, sp: word)
    requires var pc := regs[REGISTERS_PC]; M.Documented(m, pc) && !M.IsJumpIndex(m, pc)
    ensures var pc, cpu := regs[REGISTERS_PC], Z80Agreement.CpuOf(regs);
      NextPc(m, regs) == M.Successor(m, cpu.(sp := sp), pc)
      <==> (M.IsReturn(m, cpu, pc) ==> WordAt(m, regs[REGISTERS_SP]) == WordAt(m, sp))
  {
    hide NextPc, M.Successor, M.IsReturn;
    var pc := regs[REGISTERS_PC];
    Z80Agreement.StepIsArchitectural(m, regs, pc);
    M.SuccessorBySp(m, Z80Agreement.CpuOf(regs), pc, sp);
  }
}
