/** Sessions on concrete inputs: that steps exist, and how each assumption can
    fail by commands that GDB can send. */
module Examples {
  import opened Machine
  import opened GdbState
  import opened Rst8
  import opened Commands
  import opened TableProofs
  import opened Session
  import opened Transparency
  import opened Limits
  import opened SingleStep
  import opened StepLimits
  import Z80Agreement
  import M = Z80Manual

  /** NOPs everywhere, but for the vector, which leads to C000h. */
  function Blank(): Memory {
    seq(0x1_0000, a => if a == 0x0008 then 0xC3 else if a == 0x000A then 0xC0 else 0)
  }

  function EmptyTable(): Table {
    seq(MAX_BREAKPOINTS_COUNT, _ => Breakpoint(0, 0))
  }

  /** Stopped at the end of a step, with `t` for breakpoints. */
  function Halted(m: Memory, t: Table, at: word): World {
    World(Stub(m, Flags(false, false, true, false), Breakpoint(0, 0), t, 0,
               seq(REGISTERS_COUNT, _ => 0)[REGISTERS_PC := at][REGISTERS_SP := 0x8002],
               [0, 0, 0, 0, 0, 0], 0x8000, false),
          m, {}, Stopped(at), 0xC000)
  }

  function HaltedWith(m: Memory, t: Table, at: word, c: Command): World {
    Next(Halted(m, t, at), Obey(c))
  }

  lemma HaltedInv(m: Memory, t: Table, at: word)
    requires Vectored(m, 0xC000)
    ensures Inv(Halted(m, t, at))
  {
  }

  /** Neither byte of `v` is RST 08. */
  predicate NoTrapIn(v: word) {
    v % 256 != 0xCF && v / 256 != 0xCF
  }

  lemma PlainWordIsHarmless(s: Stub, slot: word, v: word)
    requires NoTrapIn(v) && (Armed(s) ==> s.temp.address !in WordSet(slot))
    requires !InVector(slot) && !InVector(Inc(slot))
    ensures HarmlessWord(s, slot, v)
  {
    assert Low(v) as int != RST08 as int && High(v) as int != RST08 as int;
  }

  lemma PlainTrapIsHarmless(s: Stub, e: Event)
    requires e.Trap? && NoTrapIn(e.at) && NoTrapIn(Inc(e.at)) && (Armed(s) ==> s.temp.address !in WordSet(e.slot))
    requires !InVector(e.slot) && !InVector(Inc(e.slot))
    ensures TrapIsHarmless(s, e)
  {
    hide HarmlessWord, Low, High;
    PlainWordIsHarmless(s, e.slot, Inc(e.at));
    var s' := Push(s, e);
    if !Reports(s') {
      SilentState(s', TrapAddress(s'));
      assert !Armed(Arrive(s'));
      PlainWordIsHarmless(Arrive(s'), e.slot, e.at);
    }
  }

  // ---- a step ----

  function One(): Table {
    EmptyTable()[0 := Breakpoint(0x0100, 0)]
  }

  lemma ExampleIsSteppable()
    ensures var w := Halted(Blank(), One(), 0x0100); Inv(w) && Steppable(w) && Target(w) == 0x0101
  {
    HaltedInv(Blank(), One(), 0x0100);
    var cpu := Z80Agreement.CpuOf(Halted(Blank(), One(), 0x0100).stub.regs);
    assert forall a: word :: M.InFootprint(Blank(), cpu, 0x0100, a) ==> a == 0x0100;
  }

  /** From a breakpoint at 0100h, `s` stops at 0101h, and memory shows no trace
      of it. */
  lemma StepExample(e: Event)
    requires e.Trap? && e.at == 0x0101 && e.slot == 0x8000
    ensures var w := HaltedWith(Blank(), One(), 0x0100, Step);
      Possible(w, e) && Next(w, e).phase == Stopped(0x0101) && Next(w, e).stub.mem == Next(w, e).logical
  {
    hide Steppable, TrapIsHarmless, AfterCommand, AfterTrap, Blank;
    var w := Halted(Blank(), One(), 0x0100);
    ExampleIsSteppable();
    StepGoesToSuccessor(w, Step);
    var w1 := Next(w, Obey(Step));
    PlainTrapIsHarmless(w1.stub, e);
    OneIsUnique(w, Step);
    UniqueIsNotStale(w1.stub, SetWord(w1.logical, e.slot, Inc(e.at)));
    StepStopsAtSuccessor(w, [], e);
  }

  /** From the same breakpoint, `c` puts it back in memory at 0101h, unnoticed. */
  lemma ContinueExample(e: Event)
    requires e.Trap? && e.at == 0x0101 && e.slot == 0x8000
    ensures var w := HaltedWith(Blank(), One(), 0x0100, Continue);
      Possible(w, e) && Next(w, e).phase.Running? && Next(w, e).stub.mem[0x0100] == RST08 && !Armed(Next(w, e).stub)
  {
    hide Steppable, TrapIsHarmless, AfterCommand, AfterTrap, Blank;
    var w := Halted(Blank(), One(), 0x0100);
    ExampleIsSteppable();
    assert w.stub.table[0].address == 0x0100;
    StepGoesToSuccessor(w, Continue);
    var w1 := Next(w, Obey(Continue));
    PlainTrapIsHarmless(w1.stub, e);
    OneIsUnique(w, Continue);
    UniqueIsNotStale(w1.stub, SetWord(w1.logical, e.slot, Inc(e.at)));
    ContinueStepsOff(w, [], e);
  }

  /** Resuming with one breakpoint leaves one. */
  lemma OneIsUnique(w: World, c: Command)
    requires w.phase.Stopped? && Resumes(c) && Inv(w)
    requires forall i: Slot, j: Slot :: w.stub.table[i].address == w.stub.table[j].address != 0 ==> i == j
    ensures var s := Next(w, Obey(c)).stub;
      s.flags.restore ==> UniqueAt(s.table, s.table[s.restoreIdx].address)
  {
    PlantedUnder(Apply(w.stub, c), w.logical);
  }

  // ---- steps that go wrong ----

  /** DJNZ to itself at 0100h, with B = 0. */
  function Looping(): Memory {
    Blank()[0x0100 := 0x10][0x0101 := 0xFE]
  }

  lemma LoopIsPlaceable()
    ensures var w := Halted(Looping(), One(), 0x0100);
      Inv(w) && Placeable(w) && Steps(w, Continue) && Target(w) == 0x0100
  {
    HaltedInv(Looping(), One(), 0x0100);
    var w := Halted(Looping(), One(), 0x0100);
    assert w.stub.table[0].address == 0x0100;
    assert High(0) as int == 0;
    assert forall a: word :: Decisive(w, a) ==> a == 0x0100 || a == 0x0101;
  }

  /** `c` off the breakpoint on this delay loop: two traps at once, and the
      program is stopped where it was, with the same registers. */
  lemma LoopNeverLeaves()
    ensures var w1 := HaltedWith(Looping(), One(), 0x0100, Continue);
      var e := TrapAtOnce(w1);
      && Possible(w1, e) && Next(w1, e).phase.Running? && TrapAtOnce(Next(w1, e)) == e && Possible(Next(w1, e), e)
      && var u := Next(Next(w1, e), e);
      u.phase == Stopped(0x0100) && u.stub.frame == FrameOf(Halted(Looping(), One(), 0x0100).stub.regs)
  {
    hide Placeable, TrapIsHarmless, AfterCommand, AfterTrap, Target, Looping, HarmlessWord, RunningInv, SetWord, Vectored;
    LoopIsPlaceable();
    var w := Halted(Looping(), One(), 0x0100);
    StepIsAssumed(w, Continue);
    StepKeeps(w, Obey(Continue));
    TemporaryIsPlaced(w, Continue);
    RunningAfter(w, Continue);
    ContinueRestores(w);
    var w1 := Next(w, Obey(Continue));
    var e := TrapAtOnce(w1);
    PlainTrapIsHarmless(w1.stub, e);
    OneIsUnique(w, Continue);
    UniqueIsNotStale(w1.stub, SetWord(w1.logical, e.slot, Inc(e.at)));
    TrapIsPossible(w1, e);
    SilentReturn(w1, e);
    PlainWordIsHarmless(Next(w1, e).stub, 0x8000, 0x0101);
    SelfContinueRepeats(w);
  }

  /** RET at 0100h; the program's stack holds 0200h, and 0300h is at 9000h. */
  function Returning(): Memory {
    Blank()[0x0100 := 0xC9][0x8003 := 0x02][0x9001 := 0x03]
  }

  function StackMoved(): World {
    HaltedWith(Returning(), EmptyTable(), 0x0100, SetRegister(REGISTERS_SP, 0x9000))
  }

  lemma StackMovedIs()
    ensures var w := StackMoved();
      && Inv(w) && w.phase == Stopped(0x0100) && w.logical == Returning() && w.stub.table == EmptyTable()
      && w.stub.regs[REGISTERS_PC] == 0x0100 && w.stub.regs[REGISTERS_SP] == 0x9000 && w.stub.sp == 0x8000
      && w.stub.flags == Flags(false, false, true, false)
  {
    HaltedInv(Returning(), EmptyTable(), 0x0100);
  }

  lemma StackMovedIsPlaceable()
    ensures var w := StackMoved(); w.phase.Stopped? && Placeable(w) && Spared(w) && Returns(w) && Target(w) == 0x0300
  {
    hide StackMoved, Inv;
    StackMovedIs();
    var w := StackMoved();
    assert forall a: word :: Decisive(w, a) ==> a == 0x0100 || a == 0x9000 || a == 0x9001;
  }

  /** GDB sets SP and steps: the breakpoint is where its stack leads, and the
      CPU goes where the program's does. */
  lemma MovedStackIsMissed()
    ensures var w := StackMoved();
      && Inv(w) && w.phase.Stopped? && Placeable(w) && Spared(w)
      && var s := Next(w, Obey(Step)).stub;
      && s.temp.address == 0x0300
      && M.Successor(s.mem, ResumedCpu(s), 0x0100) == 0x0200
  {
    hide StackMoved, Inv, AfterCommand, Placeable, Returning, M.Successor, M.IsReturn;
    StackMovedIs();
    StackMovedIsPlaceable();
    var w := StackMoved();
    var s := Next(w, Obey(Step)).stub;
    TemporaryIsPlaced(w, Step);
    UnpatchedMemory(w);
    ReturningBytes(s.mem, ResumedCpu(s));
  }

  /** Without breakpoints only the step and the return word change memory. */
  lemma UnpatchedMemory(w: World)
    requires Inv(w) && w.phase.Stopped? && w.stub.table == EmptyTable()
    ensures var s := Next(w, Obey(Step)).stub;
      forall a: word :: a != s.temp.address && a !in WordSet(w.stub.sp) ==> s.mem[a] == w.logical[a]
  {
    hide StepTarget, SetWord, PlantTable;
    var s := Resuming(w, Step);
    PlantedUnder(Apply(w.stub, Step), w.logical);
    WordElsewhere(ArmTemporary(s).mem, w.stub.sp, ResumeAddress(s, w.phase.at));
    forall a: word
      ensures s.mem[a] == w.logical[a]
    {
      LiveHolds(s, a);
    }
  }

  lemma ReturningBytes(m: Memory, cpu: M.Cpu)
    requires m[0x0100] == Returning()[0x0100] && m[0x8002] == Returning()[0x8002] && m[0x8003] == Returning()[0x8003]
    requires cpu.sp == 0x8002
    ensures M.Successor(m, cpu, 0x0100) == 0x0200
  {
  }

  // ---- a breakpoint on the vector ----

  /** GDB sets PC to a RST 08 of the program and steps: the vector is lost, and
      whatever the program does next does not enter the stub. */
  lemma StepOnTrapLosesVector(e: Event)
    requires e.Trap? && 0x0008 !in WordSet(e.slot)
    ensures var w0 := Halted(Blank()[0x0200 := RST08], EmptyTable(), 0x0100);
      var w1 := Next(Next(w0, Obey(SetRegister(REGISTERS_PC, 0x0200))), Obey(Step));
      Inv(w0) && w1.stub.mem[0x0008] == RST08 && !Possible(w1, e)
  {
    var w0 := Halted(Blank()[0x0200 := RST08], EmptyTable(), 0x0100);
    HaltedInv(w0.stub.mem, EmptyTable(), 0x0100);
    var w := Next(w0, Obey(SetRegister(REGISTERS_PC, 0x0200)));
    LosesVector(w, Step);
    NoTrapWithoutVector(Next(w, Obey(Step)), e);
  }

  /** So does `Z` on a RST 08 of the program where it stands, and `c`. */
  lemma ContinueOnTrapLosesVector(e: Event)
    requires e.Trap? && 0x0008 !in WordSet(e.slot)
    ensures var w0 := Halted(Blank()[0x0100 := RST08], EmptyTable(), 0x0100);
      var w1 := Next(Next(w0, Obey(Insert(0x0100))), Obey(Continue));
      Inv(w0) && w1.stub.mem[0x0008] == RST08 && !Possible(w1, e)
  {
    var w0 := Halted(Blank()[0x0100 := RST08], EmptyTable(), 0x0100);
    HaltedInv(w0.stub.mem, EmptyTable(), 0x0100);
    var w := Next(w0, Obey(Insert(0x0100)));
    assert w.stub.table[0].address == 0x0100;
    LosesVector(w, Continue);
    NoTrapWithoutVector(Next(w, Obey(Continue)), e);
  }

  lemma LosesVector(w: World, c: Command)
    requires w.phase.Stopped? && Inv(w) && Steps(w, c)
    requires w.stub.mem[w.stub.regs[REGISTERS_PC]] == RST08
    requires 0x0008 !in WordSet(w.stub.sp)
    ensures Next(w, Obey(c)).stub.mem[0x0008] == RST08
  {
    hide StepTarget, Low, High;
    PlantedUnder(Apply(w.stub, c), w.logical);
    TrapOpcodeTargetsVector(Apply(w.stub, c));
  }

  // ---- a temporary breakpoint that is missed ----

  /** CALL 0200h at 0100h. */
  function Calling(): Memory {
    Blank()[0x0100 := 0xCD][0x0101 := 0x00][0x0102 := 0x02]
  }

  /** Stopped at the call, GDB sets a breakpoint in the callee. */
  function BeforeCall(): World {
    HaltedWith(Calling(), EmptyTable(), 0x0100, Insert(0x0200))
  }

  function DuringCall(): World {
    Next(BeforeCall(), Obey(StepOver(3)))
  }

  lemma CallIsNext()
    ensures var w := BeforeCall();
      && Inv(w) && w.phase == Stopped(0x0100) && w.entry == 0xC000
      && w.stub.flags == Flags(false, false, true, false) && w.stub.regs[REGISTERS_PC] == 0x0100 && w.stub.sp == 0x8000
      && w.stub.table == EmptyTable()[0 := Breakpoint(0x0200, 0)]
      && w.logical[0x0103] == 0
  {
    HaltedInv(Calling(), EmptyTable(), 0x0100);
  }

  /** The state in which the return word is written. */
  function CallArmed(): Stub {
    ArmTemporary(Planted(Apply(BeforeCall().stub, StepOver(3))))
  }

  lemma CallIsArmed()
    ensures var s := CallArmed();
      && s.temp == Breakpoint(0x0103, 0) && s.flags == Flags(false, true, true, false)
      && s.table[0].address == 0x0200 && (forall i: Slot :: i != 0 ==> s.table[i].address == 0)
      && s.mem[0x0200] == RST08 && s.sp == 0x8000 && OffVector(s) && s.regs[REGISTERS_PC] == 0x0100
      && HarmlessWord(s, 0x8000, 0x0100)
  {
    hide Low, High, Uncoverable, BeforeCall, HarmlessWord, PlantTable;
    CallIsNext();
    var s := Apply(BeforeCall().stub, StepOver(3));
    PlantedUnder(s, BeforeCall().logical);
    PlantsFirst(s, 0x0200);
    PlainWordIsHarmless(CallArmed(), 0x8000, 0x0100);
  }

  lemma PlantsFirst(s: Stub, a: word)
    requires s.table[0].address == a != 0 && a != s.regs[REGISTERS_PC]
    ensures Planted(s).mem[a] == RST08
    ensures forall b: word :: s.mem[b] != RST08 && (forall i: Slot :: s.table[i].address != b) ==> Planted(s).mem[b] == s.mem[b]
  {
    PlantPrefix(s.mem, s.table, s.regs[REGISTERS_PC], MAX_BREAKPOINTS_COUNT);
  }

  lemma CallIsStepped()
    ensures Assumed(BeforeCall(), Obey(StepOver(3)))
    ensures var w := DuringCall();
      && Inv(w) && w.phase.Running? && w.stub.listening
      && w.stub.temp == Breakpoint(0x0103, 0) && w.stub.flags == Flags(false, true, true, false)
      && w.stub.table[0].address == 0x0200 && (forall i: Slot :: i != 0 ==> w.stub.table[i].address == 0)
      && w.stub.mem[0x0200] == RST08 && w.logical[0x0103] == 0 && w.entry == 0xC000
  {
    hide Planted, ArmTemporary, Uncoverable, HarmlessWord, BeforeCall, SetWord, OffVector, RunningInv;
    CallIsNext();
    CallIsArmed();
    var w := BeforeCall();
    WordElsewhere(CallArmed().mem, 0x8000, 0x0100);
    WordElsewhere(w.logical, 0x8000, 0x0100);
    CallReturns();
    ResumeKeeps(w, StepOver(3));
  }

  /** What the resumption writes, and what it assumes. */
  lemma CallReturns()
    ensures Assumed(BeforeCall(), Obey(StepOver(3)))
    ensures DuringCall().stub == CallArmed().(mem := SetWord(CallArmed().mem, 0x8000, 0x0100), listening := true)
    ensures DuringCall() == BeforeCall().(stub := DuringCall().stub, logical := SetWord(BeforeCall().logical, 0x8000, 0x0100),
                                          overwritten := WordSet(0x8000), phase := Running)
  {
    hide BeforeCall, Uncoverable, Low, High, Shown, PlantTable;
    CallIsNext();
    CallIsArmed();
    PlantedUnder(Apply(BeforeCall().stub, StepOver(3)), BeforeCall().logical);
  }

  /** The CALL pushes its return address. */
  function PushOfCall(): seq<Event> {
    [Store(0x8001, 0x01), Store(0x8000, 0x03)]
  }

  lemma CallPushes()
    ensures IsRun(DuringCall(), PushOfCall()) && AreStores(PushOfCall())
    ensures var v := After(DuringCall(), PushOfCall());
      && Inv(v) && v.stub == DuringCall().stub.(mem := v.stub.mem) && v.phase.Running? && v.entry == 0xC000
      && v.stub.mem[0x0200] == RST08 && v.logical[0x0103] == 0
  {
    hide DuringCall;
    CallIsStepped();
    var w0, es := DuringCall(), PushOfCall();
    var w1 := Next(w0, es[0]);
    assert Assumed(w0, es[0]);
    StoreKeeps(w0, es[0]);
    assert es[1..] == [es[1]] && es[1..][1..] == [];
    assert Assumed(w1, es[1]);
    StoreKeeps(w1, es[1]);
    StoresTouchMemoryOnly(w0, es);
    assert After(w0, es) == Next(w1, es[1]);
  }

  /** The callee's breakpoint stops the program with the step's RST 08 still in
      memory. */
  lemma StepOverCanLeak(e: Event)
    requires e.Trap? && e.at == 0x0200 && e.slot == 0x7FFE
    ensures IsRun(DuringCall(), PushOfCall())
    ensures var v := After(DuringCall(), PushOfCall());
      && Possible(v, e) && !Assumed(v, e)
      && Next(v, e).phase == Stopped(0x0200)
      && Next(v, e).stub.mem[0x0103] == RST08 && Next(v, e).logical[0x0103] == 0
  {
    CallIsStepped();
    CallPushes();
    MissedLeaks(After(DuringCall(), PushOfCall()), e);
  }

  lemma MissedLeaks(v: World, e: Event)
    requires e.Trap? && Inv(v) && v.phase.Running? && Armed(v.stub) && v.stub.temp.address != e.at
    requires v.stub.mem[e.at] == RST08 && NoTrapIn(Inc(e.at))
    requires !InVector(e.slot) && !InVector(Inc(e.slot)) && v.stub.temp.address !in WordSet(e.slot)
    requires !Holds(v.stub.table, v.stub.temp.address, MAX_BREAKPOINTS_COUNT)
    ensures Possible(v, e) && !Assumed(v, e)
    ensures var u, t := Next(v, e), v.stub.temp.address;
      u.phase == Stopped(e.at) && u.stub.mem[t] == RST08 && u.logical[t] == v.logical[t]
  {
    hide Low, High, HarmlessWord;
    PlainWordIsHarmless(v.stub, e.slot, Inc(e.at));
    PushKeeps(v, e);
    MissedStays(Push(v.stub, e), SetWord(v.logical, e.slot, Inc(e.at)), v.overwritten + WordSet(e.slot));
  }

  /** Ctrl-C in the callee forgets the step's RST 08, and the stop it brings
      leaves it in memory. */
  lemma InterruptCanLeak(e: Event)
    requires e.Trap? && e.at == 0x0300 && e.slot == 0x7FFE
    ensures IsRun(DuringCall(), PushOfCall())
    ensures var v := After(DuringCall(), PushOfCall());
      var v' := Next(v, Interrupt(0x0300));
      && !Inv(v') && Possible(v', e)
      && Next(v', e).phase == Stopped(0x0300)
      && Next(v', e).stub.mem[0x0103] == RST08 && Next(v', e).logical[0x0103] == 0
  {
    CallIsStepped();
    CallPushes();
    var v := After(DuringCall(), PushOfCall());
    InterruptIsSafeExactly(v, 0x0300);
    ForgottenLeaks(v, 0x0300, e);
  }

  lemma ForgottenLeaks(v: World, pc: word, e: Event)
    requires Inv(v) && v.phase.Running? && v.stub.listening && Armed(v.stub) && v.stub.flags == Flags(false, true, true, false)
    requires pc != 0 && !InVector(pc) && pc != v.stub.temp.address
    requires e.Trap? && e.at == pc && pc !in WordSet(e.slot) && NoTrapIn(Inc(e.at))
    requires !InVector(e.slot) && !InVector(Inc(e.slot)) && v.stub.temp.address !in WordSet(e.slot)
    requires !Holds(v.stub.table, v.stub.temp.address, MAX_BREAKPOINTS_COUNT)
    ensures var v' := Next(v, Interrupt(pc));
      && Possible(v', e)
      && var u, t := Next(v', e), v.stub.temp.address;
      u.phase == Stopped(pc) && u.stub.mem[t] == RST08 && u.logical[t] == v.logical[t]
  {
    hide Inv, CtrlC, SetWord, Vectored, Holds, AfterTrap;
    var v', t := Next(v, Interrupt(pc)), v.stub.temp.address;
    InterruptPlants(v, pc);
    VectorElsewhere(v'.stub.mem, e.slot, Inc(pc), v.entry);
    StopForgets(v', t, e);
  }

  lemma StopForgets(w: World, t: word, e: Event)
    requires e.Trap? && w.phase.Running? && Armed(w.stub) && e.at == w.stub.temp.address
    requires w.stub.flags.step && !w.stub.flags.restore
    requires w.stub.mem[t] == RST08 && t != e.at && t !in WordSet(e.slot) && !Holds(w.stub.table, t, MAX_BREAKPOINTS_COUNT)
    ensures var u := AfterTrap(w, e);
      u.phase == Stopped(e.at) && u.stub.mem[t] == RST08 && u.logical[t] == w.logical[t]
  {
    hide Push, Arrive, Leave, SetWord, Holds, TrapAddress, AtTemporary;
    var s := Push(w.stub, e);
    PushTraps(w.stub, e);
    WordElsewhere(w.stub.mem, e.slot, Inc(e.at));
    WordElsewhere(w.logical, e.slot, Inc(e.at));
    StepEndKeeps(s, t);
  }

  lemma InterruptPlants(v: World, pc: word)
    requires Inv(v) && v.phase.Running? && v.stub.listening && Armed(v.stub) && pc != 0 && !InVector(pc)
    ensures var v' := Next(v, Interrupt(pc));
      && v' == v.(stub := v'.stub)
      && v'.stub.temp.address == pc && v'.stub.flags == v.stub.flags.(step := true) && v'.stub.table == v.stub.table
      && v'.stub.mem[pc] == RST08 && v'.stub.mem[v.stub.temp.address] == RST08 && Vectored(v'.stub.mem, v.entry)
  {
    VectorHolds(v);
  }

  lemma WordElsewhere(m: Memory, slot: word, v: word)
    ensures forall a: word :: a !in WordSet(slot) ==> SetWord(m, slot, v)[a] == m[a]
  {
  }

  /** The end of a step leaves a RST 08 that no breakpoint accounts for. */
  lemma StepEndKeeps(s: Stub, t: word)
    requires AtTemporary(s) && s.flags.step && !s.flags.restore
    requires s.mem[t] == RST08 && t != s.temp.address && !Holds(s.table, t, MAX_BREAKPOINTS_COUNT)
    ensures Arrive(s).mem[t] == RST08
  {
    hide LatchRegisters;
    var s2 := RetireTemporary(Quieten(s));
    assert s2.mem == s.mem[s.temp.address := s.temp.original] && s2.table == s.table;
    RetireShows(s2.mem, s2.table, MAX_BREAKPOINTS_COUNT);
    ShownWithoutHolder(s2.table, t, MAX_BREAKPOINTS_COUNT);
  }

  // ---- a breakpoint set twice ----

  /** Standing on INC A at 0200h, GDB sets the same breakpoint twice. */
  function SetTwice(): World {
    Next(HaltedWith(Blank()[0x0200 := 0x3C], EmptyTable(), 0x0200, Insert(0x0200)), Obey(Insert(0x0200)))
  }

  lemma TwiceIsNext()
    ensures var w := SetTwice();
      && Inv(w) && w.phase == Stopped(0x0200) && w.logical == Blank()[0x0200 := 0x3C]
      && w.stub.table == EmptyTable()[0 := Breakpoint(0x0200, 0)][1 := Breakpoint(0x0200, 0)]
      && w.stub.regs[REGISTERS_PC] == 0x0200 && w.stub.regs[REGISTERS_SP] == 0x8002 && w.stub.sp == 0x8000
      && w.stub.flags == Flags(false, false, true, false)
  {
    HaltedInv(Blank()[0x0200 := 0x3C], EmptyTable(), 0x0200);
  }

  lemma TwiceIsSteppable()
    ensures var w := SetTwice(); Steppable(w) && Steps(w, Continue) && Target(w) == 0x0201
  {
    hide SetTwice, Inv;
    TwiceIsNext();
    var w := SetTwice();
    var cpu := Z80Agreement.CpuOf(w.stub.regs);
    assert w.stub.table[0].address == 0x0200;
    assert forall a: word :: M.InFootprint(w.logical, cpu, 0x0200, a) ==> a == 0x0200;
  }

  /** `c` arms the temporary breakpoint behind the instruction. */
  lemma TwiceArms()
    ensures var w1 := Next(SetTwice(), Obey(Continue));
      && Assumed(SetTwice(), Obey(Continue)) && Inv(w1) && w1.phase.Running?
      && Armed(w1.stub) && w1.stub.temp.address == 0x0201 && w1.stub.flags.restore && !w1.stub.flags.step
      && w1.stub.table[w1.stub.restoreIdx].address == 0x0200
  {
    hide Placeable, AfterCommand, Target, SetTwice, Inv, Assumed, Shown;
    TwiceIsNext();
    TwiceIsSteppable();
    var w := SetTwice();
    StepIsAssumed(w, Continue);
    StepGoesToSuccessor(w, Continue);
    ContinueWaits(w);
  }

  /** The trap there is silent. */
  lemma TwiceContinues(e: Event)
    requires e.Trap? && e.at == 0x0201 && e.slot == 0x8000
    ensures var w1 := Next(SetTwice(), Obey(Continue));
      && TrapIsHarmless(w1.stub, e) && Possible(w1, e)
      && var u := Next(w1, e);
      && u.phase.Running? && !Armed(u.stub) && u.stub.mem[0x0200] == RST08 && Vectored(u.stub.mem, u.entry)
  {
    hide TrapIsHarmless, AfterCommand, AfterTrap, SetTwice, Assumed, RunningInv, OffVector, Vectored;
    TwiceIsNext();
    TwiceArms();
    var w1 := Next(SetTwice(), Obey(Continue));
    PlainTrapIsHarmless(w1.stub, e);
    SilentStep(w1, e);
  }

  /** The silent trap with which a temporary breakpoint ends. */
  lemma SilentStep(w1: World, e: Event)
    requires Inv(w1) && w1.phase.Running? && w1.stub.flags.restore && !w1.stub.flags.step
    requires e.Trap? && e.at == w1.stub.temp.address && TrapIsHarmless(w1.stub, e)
    requires w1.stub.table[w1.stub.restoreIdx].address !in WordSet(e.slot)
    ensures Possible(w1, e)
    ensures var u := Next(w1, e);
      && u.phase.Running? && !Armed(u.stub) && Vectored(u.stub.mem, u.entry)
      && u.stub.mem[w1.stub.table[w1.stub.restoreIdx].address] == RST08
  {
    hide AfterTrap, HarmlessWord, SetWord, Uncoverable;
    HarmlessFirst(w1.stub, e);
    PushKeeps(w1, e);
    StaleShows(w1, e);
    var u, a := Next(w1, e), w1.stub.table[w1.stub.restoreIdx].address;
    VectorHolds(u.(logical := u.logical[a := WaitingShows(w1.stub, w1.logical)]));
    StaleIsPlanted(w1, e);
  }

  lemma HarmlessFirst(s: Stub, e: Event)
    requires e.Trap? && TrapIsHarmless(s, e)
    ensures HarmlessWord(s, e.slot, Inc(e.at))
  {
  }

  lemma StaleIsPlanted(w: World, e: Event)
    requires Inv(w) && w.phase.Running? && e.Trap? && Possible(w, e) && w.stub.flags.restore && !w.stub.flags.step
    requires e.at == w.stub.temp.address && TrapIsHarmless(w.stub, e)
    requires w.stub.table[w.stub.restoreIdx].address !in WordSet(e.slot)
    ensures Next(w, e).stub.mem[w.stub.table[w.stub.restoreIdx].address] == RST08
  {
    hide Low, High, Arrive, Leave, HarmlessWord, RunningInv, SetWord;
    PushKeeps(w, e);
    var s, logical := Push(w.stub, e), SetWord(w.logical, e.slot, Inc(e.at));
    RestoreMeansTemporary(s, logical, w.overwritten + WordSet(e.slot));
    WaitingSilent(s, logical, w.overwritten + WordSet(e.slot), e.at);
  }

  /** The next time round the program stops at its breakpoint, and GDB sees NOP
      where INC A is. */
  lemma DuplicateCanCorrupt(e: Event, e': Event)
    requires e.Trap? && e.at == 0x0201 && e.slot == 0x8000
    requires e'.Trap? && e'.at == 0x0200 && e'.slot == 0x8000
    ensures var w1 := Next(SetTwice(), Obey(Continue));
      && Possible(w1, e) && Next(w1, e).phase.Running? && Possible(Next(w1, e), e')
      && var u := Next(Next(w1, e), e');
      u.phase == Stopped(0x0200) && u.stub.mem[0x0200] == 0 != u.logical[0x0200]
  {
    hide Steppable, TrapIsHarmless, AfterCommand, AfterTrap, Target, SetTwice, Assumed, SetWord;
    TwiceIsNext();
    TwiceIsSteppable();
    TwiceArms();
    TwiceContinues(e);
    var w, w1 := SetTwice(), Next(SetTwice(), Obey(Continue));
    var u := Next(w1, e);
    PlainTrapIsHarmless(u.stub, e');
    WordElsewhere(u.stub.mem, e'.slot, Inc(e'.at));
    var t := w.stub.table;
    assert Shown(t, 0x0200, 1) == 0;
    assert t[1].address == 0x0200;
    DeferredIsLast(t, 0x0200, MAX_BREAKPOINTS_COUNT, w.stub.restoreIdx);
    DuplicatesAtPc(w, [], e, [], e');
  }
}
