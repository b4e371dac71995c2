/** A debugging session: the debuggee runs, traps, is inspected and resumed,
    in any order. Beside the stub's memory stands the logical memory, which
    holds at each address the last byte the program, GDB or a trap's return
    address put there, and never a breakpoint. */
module Session {
  import opened Machine
  import opened GdbState
  import opened Rst8
  import opened Commands
  import opened TableProofs

  datatype Phase = Running | Stopped(at: word)

  /** `overwritten` collects what has been stored to since the breakpoints were
      planted. The stub is entered at `entry`. */
  datatype World = World(stub: Stub, logical: Memory, overwritten: set<word>, phase: Phase, entry: word)

  datatype Event =
    | Store(a: word, v: byte)
    | Trap(at: word, slot: word, frame: SavedRegs)
    | Interrupt(pc: word)
    | Obey(c: Command)

  // ---- the trap vector ----

  predicate InVector(a: word) {
    0x0008 <= a <= 0x000A
  }

  /** RST 08 leads to the stub: JP `entry` stands at its vector. */
  predicate Vectored(m: Memory, entry: word) {
    m[0x0008] == 0xC3 && WordAt(m, 0x0009) == entry
  }

  // ---- steps ----

  /** RST 08 executes at `at` and pushes its return address at `slot`. */
  function Push(s: Stub, e: Event): Stub
    requires e.Trap?
  {
    s.(mem := SetWord(s.mem, e.slot, Inc(e.at)), sp := e.slot, frame := e.frame)
  }

  function WordSet(slot: word): set<word> {
    {slot, Inc(slot)}
  }

  /** What the resumption leaves in the word under the debuggee's stack. */
  function Resumed(logical: Memory, s: Stub, at: word): Memory {
    SetWord(logical, s.sp, ResumeAddress(s, at))
  }

  /** The part of `overwritten` that outlives the end of a temporary breakpoint. */
  function StillOverwritten(s: Stub, overwritten: set<word>): set<word> {
    if s.flags.restore then overwritten - {s.table[s.restoreIdx].address} else overwritten
  }

  function AfterTrap(w: World, e: Event): World
    requires e.Trap?
  {
    var s := Push(w.stub, e);
    var s' := Arrive(s);
    var logical := SetWord(w.logical, e.slot, Inc(e.at));
    if Reports(s) then w.(stub := s', logical := logical, overwritten := {}, phase := Stopped(e.at))
    else w.(stub := Leave(s', false, e.at), logical := Resumed(logical, s', e.at),
            overwritten := StillOverwritten(s, w.overwritten + WordSet(e.slot)) + WordSet(e.slot))
  }

  function AfterCommand(w: World, c: Command): World
    requires w.phase.Stopped?
  {
    var s := Apply(w.stub, c);
    var logical := if c.WriteMemory? then WriteBytes(w.logical, c.a, c.data) else w.logical;
    if Resumes(c) then
      w.(stub := Leave(s, true, w.phase.at), logical := Resumed(logical, s, w.phase.at),
         overwritten := WordSet(s.sp), phase := Running)
    else w.(stub := s, logical := logical, overwritten := {})
  }

  /** Events that the machine and the protocol make possible. A trap enters
      the stub only through the vector, as it is after the push. */
  predicate Possible(w: World, e: Event) {
    match e
    case Store(_, _) => w.phase.Running?
    case Trap(at, _, _) => w.phase.Running? && w.stub.mem[at] == RST08 && Vectored(Push(w.stub, e).mem, w.entry)
    case Interrupt(_) => w.phase.Running?
    case Obey(_) => w.phase.Stopped?
  }

  function Next(w: World, e: Event): World
    requires Possible(w, e)
  {
    match e
    case Store(a, v) =>
      w.(stub := w.stub.(mem := w.stub.mem[a := v]), logical := w.logical[a := v],
         overwritten := w.overwritten + {a})
    case Trap(_, _, _) => AfterTrap(w, e)
    case Interrupt(pc) => w.(stub := CtrlC(w.stub, pc))
    case Obey(c) => AfterCommand(w, c)
  }

  // ---- what the code relies on ----

  predicate Armed(s: Stub) {
    s.temp.address != 0
  }

  function Without(t: Table, a: word): Table {
    seq(MAX_BREAKPOINTS_COUNT, i requires 0 <= i < MAX_BREAKPOINTS_COUNT =>
      if t[i].address == a then t[i].(address := 0) else t[i])
  }

  /** The table as it stands in memory: without the entries at the address that
      waits. */
  function Live(s: Stub): Table {
    if s.flags.restore then Without(s.table, s.table[s.restoreIdx].address) else s.table
  }

  /** Storing `v` at `a` hits neither the armed temporary breakpoint nor the
      vector, and does not look like a breakpoint that hides another byte. */
  predicate Harmless(s: Stub, a: word, v: byte) {
    && (Armed(s) ==> a != s.temp.address)
    && !InVector(a)
    && (v == RST08 ==> Shown(Live(s), a, MAX_BREAKPOINTS_COUNT) == RST08)
  }

  predicate HarmlessWord(s: Stub, slot: word, w: word) {
    Harmless(s, slot, Low(w)) && Harmless(s, Inc(slot), High(w))
  }

  /** No breakpoint of either layer lies on the vector. */
  ghost predicate OffVector(s: Stub) {
    && (Armed(s) ==> !InVector(s.temp.address))
    && forall i: Slot :: !InVector(s.table[i].address)
  }

  /** No two entries wait for the same temporary breakpoint. */
  ghost predicate UniqueAt(t: Table, pc: word) {
    forall i: Slot, j: Slot :: t[i].address == pc && t[j].address == pc && pc != 0 ==> i == j
  }

  /** Entries before the one that waits, at the same address, have saved
      nothing but the byte that is there. */
  predicate NotStale(s: Stub, logical: Memory) {
    s.flags.restore ==>
      var a := s.table[s.restoreIdx].address;
      var b := Shown(s.table, a, s.restoreIdx);
      b == RST08 || b == logical[a]
  }

  /** The state in which the temporary breakpoint is placed. */
  function Planted(s: Stub): Stub {
    PlantTable(s.(frame := FrameOf(s.regs)))
  }

  /** A trap's two writes of the word under the stack. */
  predicate TrapIsHarmless(s: Stub, e: Event)
    requires e.Trap?
  {
    && HarmlessWord(s, e.slot, Inc(e.at))
    && (!Reports(Push(s, e)) ==> HarmlessWord(Arrive(Push(s, e)), e.slot, e.at))
  }

  predicate Undisturbed(w: World, e: Event)
    requires e.Trap?
  {
    TrapIsHarmless(w.stub, e) && NotStale(w.stub, SetWord(w.logical, e.slot, Inc(e.at)))
  }

  /** While a temporary breakpoint is armed, the next trap is there. */
  predicate TrapAssumed(w: World, e: Event)
    requires e.Trap?
  {
    (Armed(w.stub) ==> e.at == w.stub.temp.address) && Undisturbed(w, e)
  }

  ghost predicate Assumed(w: World, e: Event)
    requires Possible(w, e)
  {
    var s := w.stub;
    match e
    case Store(a, v) => Harmless(s, a, v)
    case Trap(_, _, _) => TrapAssumed(w, e)
    case Interrupt(pc) => s.listening ==> !Armed(s) && pc != 0 && !InVector(pc)
    case Obey(c) =>
      if Resumes(c) then
        var s' := Planted(Apply(s, c));
        && (s'.flags.step || s'.flags.restore ==> StepTarget(s') != 0)
        && OffVector(ArmTemporary(s'))
        && HarmlessWord(ArmTemporary(s'), s.sp, ResumeAddress(s', w.phase.at))
      else c.WriteMemory? ==> Vectored(WriteBytes(w.logical, c.a, c.data), w.entry)
  }

  // ---- the invariant ----

  /** Memory with the temporary breakpoint taken out. */
  function Under(s: Stub): Memory {
    if Armed(s) then s.mem[s.temp.address := s.temp.original] else s.mem
  }

  /** The last entry at the PC of the last stop. */
  ghost predicate Waiting(s: Stub) {
    var b := s.table[s.restoreIdx];
    && b.address != 0 && b.address == s.regs[REGISTERS_PC]
    && forall k: Slot :: s.restoreIdx < k ==> s.table[k].address != b.address
  }

  ghost predicate RunningInv(s: Stub, logical: Memory, overwritten: set<word>) {
    && Uncoverable(Under(s), Live(s), logical, overwritten)
    && (Armed(s) <==> s.flags.step || s.flags.restore)
    && (Armed(s) ==> s.mem[s.temp.address] == RST08)
    && !s.flags.force
    && (s.flags.restore ==> Waiting(s))
  }

  predicate StoppedInv(s: Stub, logical: Memory) {
    && s.mem == logical
    && !Armed(s) && !s.flags.step && !s.flags.restore && !s.flags.force
  }

  ghost predicate Inv(w: World) {
    && Vectored(w.logical, w.entry)
    && if w.phase.Running? then RunningInv(w.stub, w.logical, w.overwritten) && OffVector(w.stub)
       else StoppedInv(w.stub, w.logical)
  }

  // ---- every step keeps it ----

  lemma StoreUnder(m: Memory, t: Table, logical: Memory, overwritten: set<word>, a: word, v: byte)
    requires Uncoverable(m, t, logical, overwritten)
    requires v == RST08 ==> Shown(t, a, MAX_BREAKPOINTS_COUNT) == RST08
    ensures Uncoverable(m[a := v], t, logical[a := v], overwritten + {a})
  {
  }

  /** A word the stub or a trap puts under the stack is two stores. */
  lemma WordUnder(m: Memory, s: Stub, logical: Memory, overwritten: set<word>, slot: word, v: word)
    requires Uncoverable(m, Live(s), logical, overwritten) && HarmlessWord(s, slot, v)
    ensures Uncoverable(SetWord(m, slot, v), Live(s), SetWord(logical, slot, v), overwritten + WordSet(slot))
  {
    hide Low, High, Uncoverable, Live;
    StoreUnder(m, Live(s), logical, overwritten, slot, Low(v));
    StoreUnder(m[slot := Low(v)], Live(s), logical[slot := Low(v)], overwritten + {slot}, Inc(slot), High(v));
    assert overwritten + {slot} + {Inc(slot)} == overwritten + WordSet(slot);
  }

  lemma LiveHolds(s: Stub, a: word)
    ensures Holds(Live(s), a, MAX_BREAKPOINTS_COUNT) ==
            (Holds(s.table, a, MAX_BREAKPOINTS_COUNT) && (s.flags.restore ==> a != s.table[s.restoreIdx].address))
  {
    if !s.flags.restore || a != s.table[s.restoreIdx].address {
      HoldsBelow(Live(s), s.table, a, MAX_BREAKPOINTS_COUNT);
    }
  }

  lemma LiveShows(s: Stub, a: word)
    requires s.flags.restore ==> a != s.table[s.restoreIdx].address
    ensures Shown(Live(s), a, MAX_BREAKPOINTS_COUNT) == Shown(s.table, a, MAX_BREAKPOINTS_COUNT)
  {
    ShownBelow(Live(s), s.table, a, MAX_BREAKPOINTS_COUNT);
  }

  /** The vector is whole in the memory the program runs on. */
  lemma VectorHolds(w: World)
    requires Inv(w)
    ensures Vectored(w.stub.mem, w.entry)
  {
    if w.phase.Running? {
      forall a: word | InVector(a)
        ensures w.stub.mem[a] == w.logical[a]
      {
        LiveHolds(w.stub, a);
        assert Under(w.stub)[a] == w.logical[a];
      }
    }
  }

  lemma StoreKeeps(w: World, e: Event)
    requires Inv(w) && e.Store? && Possible(w, e) && Assumed(w, e)
    ensures Inv(Next(w, e))
  {
    var s, s' := w.stub, Next(w, e).stub;
    StoreUnder(Under(s), Live(s), w.logical, w.overwritten, e.a, e.v);
    assert Under(s') == Under(s)[e.a := e.v];
  }

  lemma InterruptKeeps(w: World, e: Event)
    requires Inv(w) && e.Interrupt? && Possible(w, e) && Assumed(w, e)
    ensures Inv(Next(w, e))
  {
    var s, s' := w.stub, Next(w, e).stub;
    assert Under(s') == Under(s);
  }

  lemma VectorElsewhere(m: Memory, slot: word, v: word, entry: word)
    requires Vectored(m, entry) && !InVector(slot) && !InVector(Inc(slot))
    ensures Vectored(SetWord(m, slot, v), entry)
  {
  }

  lemma PushUnder(s: Stub, e: Event, logical: Memory, overwritten: set<word>)
    requires e.Trap? && RunningInv(s, logical, overwritten) && HarmlessWord(s, e.slot, Inc(e.at))
    ensures RunningInv(Push(s, e), SetWord(logical, e.slot, Inc(e.at)), overwritten + WordSet(e.slot))
  {
    hide Low, High, Uncoverable;
    var s', v := Push(s, e), Inc(e.at);
    WordUnder(Under(s), s, logical, overwritten, e.slot, v);
    UnderElsewhere(s, s', e.slot, v);
    assert Live(s') == Live(s);
  }

  lemma UnderElsewhere(s: Stub, s': Stub, slot: word, v: word)
    requires s'.temp == s.temp && s'.mem == SetWord(s.mem, slot, v)
    requires Armed(s) ==> s.temp.address !in WordSet(slot)
    ensures Under(s') == SetWord(Under(s), slot, v)
    ensures Armed(s) ==> s'.mem[s.temp.address] == s.mem[s.temp.address]
  {
  }

  /** The trap's address is that of the RST 08 executed. */
  lemma PushTraps(s: Stub, e: Event)
    requires e.Trap?
    ensures var s' := Push(s, e);
      && TrapAddress(s') == e.at
      && (AtTemporary(s') <==> Armed(s) && e.at == s.temp.address)
      && s' == s.(mem := SetWord(s.mem, e.slot, Inc(e.at)), sp := e.slot, frame := e.frame)
      && OffVector(s') == OffVector(s)
  {
    hide SetWord, Wrap, Inc;
    WordAtSetWord(s.mem, e.slot, Inc(e.at));
    IncBack(e.at);
  }

  /** The push of the return address is like two stores. */
  lemma PushKeeps(w: World, e: Event)
    requires Inv(w) && w.phase.Running? && e.Trap?
    requires HarmlessWord(w.stub, e.slot, Inc(e.at))
    ensures var s, logical := Push(w.stub, e), SetWord(w.logical, e.slot, Inc(e.at));
      && RunningInv(s, logical, w.overwritten + WordSet(e.slot))
      && OffVector(s) && Vectored(logical, w.entry) && Vectored(s.mem, w.entry)
      && TrapAddress(s) == e.at
      && (AtTemporary(s) <==> Armed(s) && e.at == w.stub.temp.address)
      && s.sp == e.slot
  {
    hide SetWord, RunningInv, Vectored, OffVector, TrapAddress, AtTemporary, HarmlessWord, Push;
    VectorHolds(w);
    PushTraps(w.stub, e);
    WordOffVector(w.stub, e);
    VectorElsewhere(w.stub.mem, e.slot, Inc(e.at), w.entry);
    VectorElsewhere(w.logical, e.slot, Inc(e.at), w.entry);
    PushUnder(w.stub, e, w.logical, w.overwritten);
  }

  lemma WordOffVector(s: Stub, e: Event)
    requires e.Trap? && HarmlessWord(s, e.slot, Inc(e.at))
    ensures !InVector(e.slot) && !InVector(Inc(e.slot))
  {
  }

  // ---- the end of a temporary breakpoint ----

  /** The byte the waiting address shows from now on. */
  function WaitingShows(s: Stub, logical: Memory): byte {
    var a := s.table[s.restoreIdx].address;
    var b := Shown(s.table, a, s.restoreIdx);
    if b == RST08 then logical[a] else b
  }

  /** The memory that a trap uncovers, now or at the next stop: the logical
      memory, but for a stale byte at the address that waited. */
  function Seen(s: Stub, logical: Memory): Memory {
    if s.flags.restore then logical[s.table[s.restoreIdx].address := WaitingShows(s, logical)] else logical
  }

  lemma SeenExactly(s: Stub, logical: Memory)
    ensures Seen(s, logical) == logical <==> NotStale(s, logical)
  {
    if s.flags.restore {
      var a := s.table[s.restoreIdx].address;
      assert Seen(s, logical)[a] == WaitingShows(s, logical);
    }
  }

  /** Planting the entry that waited over an overlay of the others. */
  lemma RestoreUnder(s: Stub, logical: Memory, overwritten: set<word>)
    requires s.flags.restore && Waiting(s)
    requires Uncoverable(s.mem, Live(s), logical, overwritten)
    ensures var s' := RestoreEntry(s);
      Uncoverable(s'.mem, s'.table, Seen(s, logical), overwritten - {s.table[s.restoreIdx].address})
  {
    var r := s.restoreIdx;
    var a := s.table[r].address;
    var s', seen, left := RestoreEntry(s), Seen(s, logical), overwritten - {a};
    LiveHolds(s, a);
    assert s'.table[r].original == logical[a];
    ShownByLast(s.table, r, logical[a]);
    forall b: word
      ensures s'.mem[b] == if Holds(s'.table, b, MAX_BREAKPOINTS_COUNT) && b !in left then RST08 else seen[b]
      ensures s'.mem[b] == RST08 ==> Shown(s'.table, b, MAX_BREAKPOINTS_COUNT) == seen[b]
    {
      if b == a {
        assert s'.table[r].address == b;
      } else {
        LiveHolds(s, b);
        LiveShows(s, b);
        HoldsBelow(s'.table, s.table, b, MAX_BREAKPOINTS_COUNT);
        ShownBelow(s'.table, s.table, b, MAX_BREAKPOINTS_COUNT);
      }
    }
  }

  /** The end of a temporary breakpoint leaves the table's overlay. */
  lemma RetireTemporaryUnder(s: Stub, logical: Memory, overwritten: set<word>)
    requires RunningInv(s, logical, overwritten) && AtTemporary(s)
    ensures var s' := RetireTemporary(Quieten(s));
      && Uncoverable(s'.mem, s'.table, Seen(s, logical), StillOverwritten(s, overwritten))
      && !Armed(s') && s'.flags == Flags(false, false, true, false)
      && forall i: Slot :: s'.table[i].address == s.table[i].address
  {
    var s1 := Quieten(s).(mem := Under(s), flags := s.flags.(hit := true));
    if s.flags.restore {
      assert Live(s1) == Live(s);
      RestoreUnder(s1, logical, overwritten);
    }
  }

  lemma RestoreMeansTemporary(s: Stub, logical: Memory, overwritten: set<word>)
    requires RunningInv(s, logical, overwritten) && s.flags.restore && (Armed(s) ==> AtTemporary(s))
    ensures AtTemporary(s)
  {
  }

  /** What a trap shown to GDB uncovers. */
  lemma ReportedTrap(s: Stub, logical: Memory, overwritten: set<word>)
    requires RunningInv(s, logical, overwritten) && (Armed(s) ==> AtTemporary(s)) && Reports(s)
    ensures StoppedInv(Arrive(s), Seen(s, logical))
  {
    var s1 := Quieten(s);
    if AtTemporary(s) {
      RetireTemporaryUnder(s, logical, overwritten);
      var s2 := RetireTemporary(s1);
      RetireUncovers(s2.mem, s2.table, Seen(s, logical), StillOverwritten(s, overwritten));
    } else {
      RetireUncovers(s1.mem, s1.table, logical, overwritten);
    }
  }

  /** The end of a silent step hands over to the running debuggee at once. */
  lemma SilentTrap(s: Stub, logical: Memory, overwritten: set<word>, at: word)
    requires RunningInv(s, logical, overwritten) && AtTemporary(s) && !Reports(s)
    requires at == TrapAddress(s) && HarmlessWord(Arrive(s), s.sp, at)
    ensures var s' := Arrive(s);
      && RunningInv(Leave(s', false, at), Resumed(Seen(s, logical), s', at),
                    StillOverwritten(s, overwritten) + WordSet(s.sp))
      && ResumeAddress(s', at) == at && !Armed(Leave(s', false, at))
      && Leave(s', false, at).table == s'.table
      && forall i: Slot :: s'.table[i].address == s.table[i].address
  {
    hide SetWord, Uncoverable, HarmlessWord;
    RetireTemporaryUnder(s, logical, overwritten);
    var s' := Arrive(s);
    assert s'.regs[REGISTERS_PC] == at;
    WordUnder(s'.mem, s', Seen(s, logical), StillOverwritten(s, overwritten), s.sp, at);
  }

  /** A trap's effect whatever the entries have saved: what GDB or the program
      sees from now on is the logical memory, but for a stale byte. */
  lemma TrapSees(w: World, e: Event)
    requires Inv(w) && e.Trap? && w.phase.Running?
    requires (Armed(w.stub) ==> e.at == w.stub.temp.address) && TrapIsHarmless(w.stub, e)
    ensures var s, logical := Push(w.stub, e), SetWord(w.logical, e.slot, Inc(e.at));
      var u := AfterTrap(w, e);
      && Vectored(Seen(s, logical), w.entry)
      && if u.phase.Stopped? then StoppedInv(u.stub, Seen(s, logical))
         else
           && RunningInv(u.stub, SetWord(Seen(s, logical), e.slot, e.at), u.overwritten)
           && OffVector(u.stub) && !Armed(u.stub)
           && u.logical == SetWord(logical, e.slot, e.at)
           && Vectored(SetWord(Seen(s, logical), e.slot, e.at), w.entry)
  {
    hide RunningInv, StoppedInv, SetWord, Arrive, Leave, Vectored, HarmlessWord, OffVector, TrapAddress;
    PushKeeps(w, e);
    var s, logical := Push(w.stub, e), SetWord(w.logical, e.slot, Inc(e.at));
    SeenKeepsVector(s, logical, w.entry);
    if Reports(s) {
      ReportedTrap(s, logical, w.overwritten + WordSet(e.slot));
    } else {
      SilentTrap(s, logical, w.overwritten + WordSet(e.slot), e.at);
      SilentKeepsVector(s, e.at, Seen(s, logical), w.entry);
      ArriveKeepsSp(s);
    }
  }

  lemma ArriveKeepsSp(s: Stub)
    ensures Arrive(s).sp == s.sp
  {
  }

  lemma SeenKeepsVector(s: Stub, logical: Memory, entry: word)
    requires OffVector(s) && Vectored(logical, entry)
    ensures Vectored(Seen(s, logical), entry)
  {
  }

  lemma SilentKeepsVector(s: Stub, at: word, logical: Memory, entry: word)
    requires OffVector(s) && Vectored(logical, entry) && HarmlessWord(Arrive(s), s.sp, at)
    requires var s' := Leave(Arrive(s), false, at);
      !Armed(s') && forall i: Slot :: s'.table[i].address == s.table[i].address
    ensures OffVector(Leave(Arrive(s), false, at)) && Vectored(SetWord(logical, s.sp, at), entry)
  {
    hide Arrive, Leave, Shown, Low, High;
  }

  lemma TrapKeeps(w: World, e: Event)
    requires Inv(w) && e.Trap? && Possible(w, e) && Assumed(w, e)
    ensures Inv(Next(w, e))
  {
    hide AfterTrap, SetWord, Vectored, RunningInv, StoppedInv, OffVector, TrapIsHarmless;
    TrapSees(w, e);
    SeenExactly(Push(w.stub, e), SetWord(w.logical, e.slot, Inc(e.at)));
    TrapEntry(w, e);
  }

  /** What a trap does not touch. */
  lemma TrapEntry(w: World, e: Event)
    requires e.Trap? && w.phase.Running?
    ensures AfterTrap(w, e).entry == w.entry
    ensures AfterTrap(w, e).phase.Stopped? ==> AfterTrap(w, e).logical == SetWord(w.logical, e.slot, Inc(e.at))
    ensures NotStale(Push(w.stub, e), SetWord(w.logical, e.slot, Inc(e.at)))
            == NotStale(w.stub, SetWord(w.logical, e.slot, Inc(e.at)))
  {
  }

  // ---- resuming ----

  lemma {:induction false} DeferredIsLast(t: Table, pc: word, n: nat, otherwise: Slot)
    requires n <= MAX_BREAKPOINTS_COUNT && Holds(t, pc, n)
    ensures var i := Deferred(t, pc, n, otherwise);
      i < n && t[i].address == pc && pc != 0 && forall k :: i < k < n ==> t[k].address != pc
  {
    if t[n - 1].address != pc {
      HoldsOne(t, pc, n - 1);
      DeferredIsLast(t, pc, n - 1, otherwise);
    }
  }

  /** Planting the table lays it over the logical memory, all but the entries
      at PC, of which the last has to wait. */
  lemma PlantedUnder(s: Stub, logical: Memory)
    requires s.mem == logical && !s.flags.restore
    ensures var s' := Planted(s);
      && Uncoverable(s'.mem, Live(s'), logical, {})
      && (s'.flags.restore ==> Waiting(s'))
      && (s'.flags.restore <==> Holds(s.table, s.regs[REGISTERS_PC], MAX_BREAKPOINTS_COUNT))
      && s' == s.(mem := s'.mem, table := s'.table, frame := FrameOf(s.regs), restoreIdx := s'.restoreIdx,
                  flags := s.flags.(restore := s'.flags.restore))
      && forall i: Slot ::
           && s'.table[i].address == s.table[i].address
           && (s.table[i].address == s.regs[REGISTERS_PC] ==> s'.table[i] == s.table[i])
  {
    var pc, s' := s.regs[REGISTERS_PC], Planted(s);
    PlantPrefix(s.mem, s.table, pc, MAX_BREAKPOINTS_COUNT);
    if s'.flags.restore {
      DeferredIsLast(s.table, pc, MAX_BREAKPOINTS_COUNT, s.restoreIdx);
    }
    forall a: word
      ensures s'.mem[a] == if Holds(Live(s'), a, MAX_BREAKPOINTS_COUNT) then RST08 else logical[a]
      ensures s'.mem[a] == RST08 ==> Shown(Live(s'), a, MAX_BREAKPOINTS_COUNT) == logical[a]
    {
      LiveHolds(s', a);
      HoldsBelow(s'.table, s.table, a, MAX_BREAKPOINTS_COUNT);
      if a == pc {
        ShownWithoutHolder(Live(s'), a, MAX_BREAKPOINTS_COUNT);
      } else {
        LiveShows(s', a);
        PlantedShows(s.mem, s.table, pc, a, MAX_BREAKPOINTS_COUNT);
      }
    }
  }

  lemma ArmedUnder(s: Stub, logical: Memory)
    requires Uncoverable(s.mem, Live(s), logical, {}) && (s.flags.restore ==> Waiting(s))
    requires if s.flags.step || s.flags.restore then StepTarget(s) != 0 else !Armed(s) && !s.flags.force
    ensures RunningInv(ArmTemporary(s), logical, {})
  {
    var s' := ArmTemporary(s);
    assert Under(s') == s.mem;
  }

  /** The return word is two more stores. */
  lemma ReturnUnder(s: Stub, logical: Memory, at: word)
    requires RunningInv(s, logical, {}) && HarmlessWord(s, s.sp, ResumeAddress(s, at))
    ensures RunningInv(SetReturn(s, at), Resumed(logical, s, at), WordSet(s.sp))
  {
    hide Low, High, Uncoverable, Waiting;
    var s' := SetReturn(s, at);
    WordUnder(Under(s), s, logical, {}, s.sp, ResumeAddress(s, at));
    assert {} + WordSet(s.sp) == WordSet(s.sp);
    assert Under(s') == SetWord(Under(s), s.sp, ResumeAddress(s, at));
    assert Live(s') == Live(s);
    WaitingSame(s, s');
  }

  lemma WaitingSame(s: Stub, s': Stub)
    requires s'.table == s.table && s'.restoreIdx == s.restoreIdx && s'.regs == s.regs
    ensures Waiting(s') == Waiting(s)
  {
  }

  lemma ResumeKeeps(w: World, c: Command)
    requires Inv(w) && w.phase.Stopped? && Resumes(c) && Assumed(w, Obey(c))
    ensures Inv(Next(w, Obey(c)))
  {
    var s := Apply(w.stub, c);
    hide StepTarget, SetReturn, SetWord, RunningInv, Uncoverable, Live, PlantTable, Harmless, Vectored;
    PlantedUnder(s, w.logical);
    ArmedUnder(Planted(s), w.logical);
    ReturnUnder(ArmTemporary(Planted(s)), w.logical, w.phase.at);
    ReturnOffVector(w.logical, ArmTemporary(Planted(s)), w.phase.at, w.entry);
  }

  lemma ReturnOffVector(logical: Memory, s: Stub, at: word, entry: word)
    requires Vectored(logical, entry) && HarmlessWord(s, s.sp, ResumeAddress(s, at))
    ensures Vectored(Resumed(logical, s, at), entry)
    ensures OffVector(SetReturn(s, at)) == OffVector(s)
  {
  }

  /** What the session keeps at every step. */
  lemma StepKeeps(w: World, e: Event)
    requires Inv(w) && Possible(w, e) && Assumed(w, e)
    ensures Inv(Next(w, e))
  {
    match e
    case Store(_, _) => StoreKeeps(w, e);
    case Trap(_, _, _) => TrapKeeps(w, e);
    case Interrupt(_) => InterruptKeeps(w, e);
    case Obey(c) =>
      if Resumes(c) {
        ResumeKeeps(w, c);
      }
  }
}
