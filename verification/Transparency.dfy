/** What holds on every run of a session. */
module Transparency {
  import opened Machine
  import opened GdbState
  import opened Rst8
  import opened Commands
  import opened TableProofs
  import opened Session

  // ---- runs ----

  /** A session before its first trap. */
  ghost predicate Initial(w: World) {
    && w.phase.Running? && w.stub.mem == w.logical && w.overwritten == {} && Vectored(w.logical, w.entry)
    && w.stub.flags == Flags(false, false, false, false)
    && !Armed(w.stub)
    && forall i: Slot :: w.stub.table[i].address == 0
  }

  ghost predicate IsRun(w: World, es: seq<Event>)
    decreases |es|
  {
    es == [] || (Possible(w, es[0]) && Assumed(w, es[0]) && IsRun(Next(w, es[0]), es[1..]))
  }

  ghost function After(w: World, es: seq<Event>): World
    requires IsRun(w, es)
    decreases |es|
  {
    if es == [] then w else After(Next(w, es[0]), es[1..])
  }

  lemma {:induction false} RunKeeps(w: World, es: seq<Event>)
    requires Inv(w) && IsRun(w, es)
    ensures Inv(After(w, es))
    decreases |es|
  {
    if es != [] {
      StepKeeps(w, es[0]);
      RunKeeps(Next(w, es[0]), es[1..]);
    }
  }

  lemma InitialInv(w: World)
    requires Initial(w)
    ensures Inv(w)
  {
    assert Under(w.stub) == w.logical;
    forall a: word
      ensures Shown(Live(w.stub), a, MAX_BREAKPOINTS_COUNT) == RST08
    {
      ShownWithoutHolder(Live(w.stub), a, MAX_BREAKPOINTS_COUNT);
    }
  }

  /** RST 08 that the stub has put at `a` while the debuggee runs. */
  predicate Patched(w: World, a: word) {
    || (Armed(w.stub) && a == w.stub.temp.address)
    || (Holds(Live(w.stub), a, MAX_BREAKPOINTS_COUNT) && a !in w.overwritten)
  }

  /** GDB never sees a breakpoint in memory; the debuggee runs on its own
      bytes but for RST 08 at the breakpoints. */
  lemma MemoryIsTransparent(w: World, es: seq<Event>)
    requires Initial(w) && IsRun(w, es)
    ensures var v := After(w, es);
      if v.phase.Stopped? then v.stub.mem == v.logical
      else forall a: word :: v.stub.mem[a] == if Patched(v, a) then RST08 else v.logical[a]
  {
    InitialInv(w);
    RunKeeps(w, es);
    var v := After(w, es);
    if v.phase.Running? {
      forall a: word
        ensures v.stub.mem[a] == if Patched(v, a) then RST08 else v.logical[a]
      {
        assert Under(v.stub)[a] == v.stub.mem[a] || (Armed(v.stub) && a == v.stub.temp.address);
      }
    }
  }

  /** While the debuggee runs, every breakpoint is in memory, has been
      overwritten, or is at the address that waits: the PC of the last stop. */
  lemma BreakpointsAreComplete(w: World, es: seq<Event>, i: Slot)
    requires Initial(w) && IsRun(w, es) && After(w, es).phase.Running?
    requires After(w, es).stub.table[i].address != 0
    ensures var v := After(w, es);
      var a := v.stub.table[i].address;
      || v.stub.mem[a] == RST08
      || a in v.overwritten
      || (v.stub.flags.restore && a == v.stub.table[v.stub.restoreIdx].address == v.stub.regs[REGISTERS_PC]
          && Armed(v.stub))
  {
    InitialInv(w);
    RunKeeps(w, es);
    MemoryIsTransparent(w, es);
    var v := After(w, es);
    LiveHolds(v.stub, v.stub.table[i].address);
  }

  /** A step or a waiting breakpoint is pending just when the temporary
      breakpoint is armed; a forced address never outlives the resumption. */
  lemma FlagsAreConsistent(w: World, es: seq<Event>)
    requires Initial(w) && IsRun(w, es)
    ensures var s := After(w, es).stub;
      && (Armed(s) <==> s.flags.step || s.flags.restore) && !s.flags.force
      && (s.flags.restore ==> After(w, es).phase.Running? && Waiting(s))
  {
    InitialInv(w);
    RunKeeps(w, es);
  }

  // ---- stretches in which the program only stores ----

  predicate AreStores(es: seq<Event>) {
    forall i :: 0 <= i < |es| ==> es[i].Store?
  }

  function StoreAll(m: Memory, es: seq<Event>): Memory
    requires AreStores(es)
    decreases |es|
  {
    if es == [] then m else StoreAll(m[es[0].a := es[0].v], es[1..])
  }

  lemma {:induction false} StoresTouchMemoryOnly(w: World, es: seq<Event>)
    requires IsRun(w, es) && AreStores(es)
    ensures var v := After(w, es);
      && v.stub == w.stub.(mem := v.stub.mem) && v.phase == w.phase && v.entry == w.entry
      && v.logical == StoreAll(w.logical, es)
    decreases |es|
  {
    if es != [] {
      StoresTouchMemoryOnly(Next(w, es[0]), es[1..]);
    }
  }

  // ---- silent traps ----

  ghost predicate IsQuietStretch(w: World, es: seq<Event>)
    decreases |es|
  {
    es == [] || ((es[0].Store? || es[0].Interrupt?) && Possible(w, es[0]) && IsQuietStretch(Next(w, es[0]), es[1..]))
  }

  ghost function AfterStretch(w: World, es: seq<Event>): World
    requires IsQuietStretch(w, es)
    decreases |es|
  {
    if es == [] then w else AfterStretch(Next(w, es[0]), es[1..])
  }

  lemma {:induction false} StretchKeepsReports(w: World, es: seq<Event>)
    requires IsQuietStretch(w, es) && (Armed(w.stub) ==> w.stub.flags.step)
    ensures var v := AfterStretch(w, es); Armed(v.stub) ==> v.stub.flags.step
    decreases |es|
  {
    if es != [] {
      StretchKeepsReports(Next(w, es[0]), es[1..]);
    }
  }

  /** Two traps in a row are never both silent, from any state at all. */
  lemma SilentTrapsDoNotRepeat(w: World, e: Event, es: seq<Event>, e': Event)
    requires e.Trap? && Possible(w, e) && Next(w, e).phase.Running?
    requires IsQuietStretch(Next(w, e), es)
    requires e'.Trap? && Possible(AfterStretch(Next(w, e), es), e')
    ensures Next(AfterStretch(Next(w, e), es), e').phase.Stopped?
  {
    assert !Armed(Next(w, e).stub);
    StretchKeepsReports(Next(w, e), es);
  }

  // ---- breakpoints are hit ----

  /** The first of the entries in memory at `a`, not overwritten. */
  ghost predicate InMemoryAt(w: World, i: Slot, a: word) {
    && Live(w.stub)[i].address == a && a != 0 && a !in w.overwritten
    && !Holds(Live(w.stub), a, i)
  }

  lemma SurvivesRetiring(s: Stub, i: Slot, at: word)
    requires s.table[i].address == at != 0 && s.mem[at] == RST08 && !Holds(s.table, at, i)
    ensures RetireTable(s, at).flags.hit && RetireTable(s, at).table[i] == s.table[i]
  {
    FirstStays(s.mem, s.table, i);
  }

  /** Where an overlay has an entry, RST 08 stands. */
  lemma OverlayAt(m: Memory, t: Table, logical: Memory, overwritten: set<word>, i: Slot)
    requires Uncoverable(m, t, logical, overwritten) && t[i].address != 0 && t[i].address !in overwritten
    ensures m[t[i].address] == RST08
  {
  }

  /** Whatever else a live entry's address has, it is not waiting. */
  lemma LiveSame(s: Stub, i: Slot, a: word)
    requires Live(s)[i].address == a && a != 0
    ensures s.table[i].address == a
    ensures forall j: Slot :: s.table[j].address == a <==> Live(s)[j].address == a
  {
  }

  /** The entry when the trap at it is reported. */
  lemma HitReported(s: Stub, logical: Memory, overwritten: set<word>, i: Slot)
    requires RunningInv(s, logical, overwritten) && Reports(s) && (Armed(s) ==> AtTemporary(s))
    requires var a := TrapAddress(s);
      Live(s)[i].address == a && a != 0 && a !in overwritten && !Holds(Live(s), a, i)
    ensures Arrive(s).flags.hit && Arrive(s).table[i].address == TrapAddress(s)
  {
    hide LatchRegisters, TrapAddress, Uncoverable;
    var a, s1 := TrapAddress(s), Quieten(s);
    LiveSame(s, i, a);
    HoldsBelow(s.table, Live(s), a, i);
    if AtTemporary(s) {
      RetireTemporaryUnder(s, logical, overwritten);
      var s2 := RetireTemporary(s1);
      HoldsBelow(s2.table, s.table, a, i);
      OverlayAt(s2.mem, s2.table, Seen(s, logical), StillOverwritten(s, overwritten), i);
      SurvivesRetiring(s2, i, a);
    } else {
      OverlayAt(s1.mem, s1.table, logical, overwritten, i);
      SurvivesRetiring(s1, i, a);
    }
  }

  /** An entry in memory stays there when its own address is a step's end. */
  lemma HitSilent(s: Stub, logical: Memory, overwritten: set<word>, i: Slot)
    requires RunningInv(s, logical, overwritten) && !Reports(s)
    requires HarmlessWord(Arrive(s), s.sp, TrapAddress(s))
    requires var a := TrapAddress(s);
      Live(s)[i].address == a && a != 0 && a !in overwritten && !Holds(Live(s), a, i) && a !in WordSet(s.sp)
    ensures var a, s' := TrapAddress(s), Leave(Arrive(s), false, TrapAddress(s));
      && s'.mem[a] == RST08 && WordAt(s'.mem, s'.sp) == a
      && !Armed(s') && Live(s')[i].address == a && !Holds(Live(s'), a, i)
  {
    hide LatchRegisters, TrapAddress, Uncoverable, SetWord, Low, High;
    var a, s' := TrapAddress(s), Leave(Arrive(s), false, TrapAddress(s));
    LiveSame(s, i, a);
    SilentTrap(s, logical, overwritten, a);
    HoldsBelow(s'.table, s.table, a, i);
    HoldsBelow(s.table, Live(s), a, i);
    OverlayAt(Under(s'), Live(s'), Resumed(Seen(s, logical), Arrive(s), a),
              StillOverwritten(s, overwritten) + WordSet(s.sp), i);
    WordAtSetWord(Arrive(s).mem, s.sp, a);
  }

  /** Execution that reaches a breakpoint traps there. The trap is reported,
      with the breakpoint still in the table and the program's own byte back
      in memory; or it ends a silent step, and then execution resumes at the
      same address with RST 08 still there, so that the next trap reports it. */
  lemma BreakpointIsHit(w: World, i: Slot, e: Event)
    requires Inv(w) && w.phase.Running? && e.Trap? && InMemoryAt(w, i, e.at)
    requires TrapAssumed(w, e) && e.at !in WordSet(e.slot)
    ensures Possible(w, e)
    ensures var v := Next(w, e);
      if v.phase.Stopped? then
        && v.phase == Stopped(e.at) && v.stub.regs[REGISTERS_PC] == e.at && v.stub.flags.hit
        && v.stub.table[i].address == e.at && v.stub.mem == v.logical
      else
        && v.stub.mem[e.at] == RST08 && WordAt(v.stub.mem, v.stub.sp) == e.at
        && !Armed(v.stub) && InMemoryAt(v, i, e.at)
  {
    hide Low, High, Uncoverable, SetWord, Arrive, Leave, Vectored;
    EntryTraps(w, i, e);
    TrapKeeps(w, e);
    PushKeeps(w, e);
    var s, logical := Push(w.stub, e), SetWord(w.logical, e.slot, Inc(e.at));
    assert Live(s) == Live(w.stub);
    StopsAtTrap(s);
    ArriveKeepsSp(s);
    if Reports(s) {
      HitReported(s, logical, w.overwritten + WordSet(e.slot), i);
    } else {
      HitSilent(s, logical, w.overwritten + WordSet(e.slot), i);
    }
  }

  lemma EntryTraps(w: World, i: Slot, e: Event)
    requires Inv(w) && w.phase.Running? && e.Trap? && InMemoryAt(w, i, e.at) && TrapAssumed(w, e)
    ensures Possible(w, e)
  {
    PushKeeps(w, e);
    OverlayAt(Under(w.stub), Live(w.stub), w.logical, w.overwritten, i);
  }

  // ---- the breakpoint that waits ----

  lemma UniqueIsNotStale(s: Stub, logical: Memory)
    requires s.flags.restore ==> UniqueAt(s.table, s.table[s.restoreIdx].address)
    ensures NotStale(s, logical)
  {
    if s.flags.restore && s.table[s.restoreIdx].address != 0 {
      ShownWithoutHolder(s.table, s.table[s.restoreIdx].address, s.restoreIdx);
    } else if s.flags.restore {
      ShownWithoutHolder(s.table, 0, s.restoreIdx);
    }
  }

  // ---- no duplicates ----

  ghost predicate Distinct(t: Table) {
    forall i: Slot, j: Slot :: t[i].address == t[j].address != 0 ==> i == j
  }

  /** No entry has a new address. */
  ghost predicate Shrunk(t: Table, t': Table) {
    forall i: Slot :: t'[i].address == 0 || t'[i].address == t[i].address
  }

  /** A breakpoint is set only where none is. */
  predicate IsFresh(w: World, e: Event) {
    e.Obey? && e.c.Insert? && e.c.a != 0 ==> !Holds(w.stub.table, e.c.a, MAX_BREAKPOINTS_COUNT)
  }

  lemma LeaveShrinks(s: Stub, reported: bool, at: word)
    ensures Shrunk(s.table, Leave(s, reported, at).table)
  {
    hide StepTarget, SetWord, ResumeAddress;
    PlantPrefix(s.mem, s.table, s.regs[REGISTERS_PC], MAX_BREAKPOINTS_COUNT);
  }

  lemma ArriveShrinks(s: Stub)
    ensures Shrunk(s.table, Arrive(s).table)
  {
    hide TrapAddress, LatchRegisters;
    var s1 := Quieten(s);
    var s2 := if AtTemporary(s) then RetireTemporary(s1) else s1;
    assert Shrunk(s.table, s2.table);
    RetireShows(s2.mem, s2.table, MAX_BREAKPOINTS_COUNT);
  }

  lemma ApplyKeepsDistinct(w: World, c: Command)
    requires Distinct(w.stub.table) && IsFresh(w, Obey(c))
    ensures Distinct(Apply(w.stub, c).table)
  {
    if c.Insert? && c.a != 0 {
      assert forall i: Slot :: w.stub.table[i].address != c.a;
    }
  }

  /** From any state, whatever else fails: addresses stay distinct. */
  lemma NextKeepsDistinct(w: World, e: Event)
    requires Possible(w, e) && Distinct(w.stub.table) && IsFresh(w, e)
    ensures Distinct(Next(w, e).stub.table)
  {
    hide Arrive, Leave, Apply, Retire;
    match e
    case Trap(_, _, _) =>
      var s := Push(w.stub, e);
      ArriveShrinks(s);
      LeaveShrinks(Arrive(s), false, e.at);
    case Obey(c) =>
      ApplyKeepsDistinct(w, c);
      LeaveShrinks(Apply(w.stub, c), true, w.phase.at);
    case _ =>
  }

  /** What the session assumes when no breakpoint is set twice. */
  ghost predicate AssumedFresh(w: World, e: Event)
    requires Possible(w, e)
  {
    if e.Trap? then (Armed(w.stub) ==> e.at == w.stub.temp.address) && TrapIsHarmless(w.stub, e)
    else IsFresh(w, e) && Assumed(w, e)
  }

  ghost predicate IsFreshRun(w: World, es: seq<Event>)
    decreases |es|
  {
    es == [] || (Possible(w, es[0]) && AssumedFresh(w, es[0]) && IsFreshRun(Next(w, es[0]), es[1..]))
  }

  /** If GDB sets no breakpoint where one is, no saved byte is ever stale: the
      session then assumes nothing of them. */
  lemma {:induction false} FreshRunIsRun(w: World, es: seq<Event>)
    requires Distinct(w.stub.table) && IsFreshRun(w, es)
    ensures IsRun(w, es) && Distinct(After(w, es).stub.table)
    decreases |es|
  {
    if es != [] {
      var e := es[0];
      if e.Trap? {
        UniqueIsNotStale(w.stub, SetWord(w.logical, e.slot, Inc(e.at)));
      }
      NextKeepsDistinct(w, e);
      FreshRunIsRun(Next(w, e), es[1..]);
    }
  }

  /** The waiting address once the temporary breakpoint is undone. */
  lemma WaitingRestored(s: Stub, logical: Memory, overwritten: set<word>)
    requires RunningInv(s, logical, overwritten) && s.flags.restore && AtTemporary(s)
    ensures var s2, r := RetireTemporary(Quieten(s)), s.restoreIdx;
      var a := s.table[r].address;
      && s2.mem[a] == RST08 && s2.table[r] == Breakpoint(a, logical[a]) && !s2.flags.restore
      && forall j: Slot :: s2.table[j].address == s.table[j].address
  {
    RetireTemporaryUnder(s, logical, overwritten);
    LiveHolds(s, s.table[s.restoreIdx].address);
    assert Under(s)[s.table[s.restoreIdx].address] == logical[s.table[s.restoreIdx].address];
  }

  /** After a reported trap an entry at the address that waited is in the table. */
  lemma WaitingReported(s: Stub, logical: Memory, overwritten: set<word>)
    requires RunningInv(s, logical, overwritten) && s.flags.restore && AtTemporary(s) && Reports(s)
    ensures var s', r := Arrive(s), s.restoreIdx;
      var a := s.table[r].address;
      && !s'.flags.restore && Holds(s'.table, a, MAX_BREAKPOINTS_COUNT)
      && (UniqueAt(s.table, a) ==> s'.table[r] == Breakpoint(a, logical[a]))
  {
    hide LatchRegisters;
    var s2, a := RetireTemporary(Quieten(s)), s.table[s.restoreIdx].address;
    WaitingRestored(s, logical, overwritten);
    var i := FirstHolder(s2.table, a, MAX_BREAKPOINTS_COUNT);
    FirstStays(s2.mem, s2.table, i);
  }

  /** After a silent one it is planted, with the byte it covers. */
  lemma WaitingSilent(s: Stub, logical: Memory, overwritten: set<word>, at: word)
    requires RunningInv(s, logical, overwritten) && s.flags.restore && AtTemporary(s) && !Reports(s)
    requires at == TrapAddress(s) && HarmlessWord(Arrive(s), s.sp, at)
    ensures var s', r := Leave(Arrive(s), false, at), s.restoreIdx;
      var a := s.table[r].address;
      && !s'.flags.restore && !Armed(s') && s'.table[r] == Breakpoint(a, logical[a])
      && Holds(s'.table, a, MAX_BREAKPOINTS_COUNT)
      && (a !in WordSet(s.sp) ==> s'.mem[a] == RST08)
  {
    hide Arrive, RetireTemporary, HarmlessWord, Uncoverable, Low, High;
    WaitingRestored(s, logical, overwritten);
    SilentTrap(s, logical, overwritten, at);
    SilentState(s, at);
  }

  /** When the temporary breakpoint ends, the breakpoint that waited for it is
      in memory with the byte it covers now, whatever it had saved before; or
      the trap is reported and the breakpoint is still in the table. */
  lemma WaitingEntryIsPlanted(w: World, e: Event)
    requires Inv(w) && w.phase.Running? && w.stub.flags.restore
    requires e.Trap? && Possible(w, e) && Assumed(w, e)
    ensures var v, r := Next(w, e), w.stub.restoreIdx;
      var a := w.stub.table[r].address;
      && !v.stub.flags.restore && Holds(v.stub.table, a, MAX_BREAKPOINTS_COUNT)
      && (UniqueAt(w.stub.table, a) ==> v.stub.table[r].address == a)
      && (v.phase.Running? && a !in WordSet(e.slot) ==>
            && v.stub.mem[a] == RST08 && v.stub.table[r] == Breakpoint(a, v.logical[a])
            && a !in v.overwritten && !Armed(v.stub))
  {
    hide Low, High, Arrive, Leave, RunningInv, Vectored, HarmlessWord;
    PushKeeps(w, e);
    var s, logical := Push(w.stub, e), SetWord(w.logical, e.slot, Inc(e.at));
    var overwritten := w.overwritten + WordSet(e.slot);
    RestoreMeansTemporary(s, logical, overwritten);
    if Reports(s) {
      WaitingReported(s, logical, overwritten);
    } else {
      WaitingSilent(s, logical, overwritten, e.at);
      ArriveKeepsSp(s);
    }
  }

  lemma SilentState(s: Stub, at: word)
    requires AtTemporary(s) && !Reports(s) && at == TrapAddress(s)
    ensures var s2, s' := RetireTemporary(Quieten(s)), Leave(Arrive(s), false, at);
      s'.table == s2.table && s'.flags == s2.flags && s'.mem == SetWord(s2.mem, s.sp, ResumeAddress(Arrive(s), at))
  {
    hide Low, High;
    assert !Arrive(s).flags.step && !Arrive(s).flags.restore;
  }

  // ---- a stop as the server conducts it ----

  function Obeyed(cs: seq<Command>): (es: seq<Event>)
    ensures |es| == |cs|
  {
    seq(|cs|, i requires 0 <= i < |cs| => Obey(cs[i]))
  }

  /** The commands of one stop, obeyed one by one, make the debuggee resume
      from the state `Leave` computes. */
  lemma {:induction false} DialogueResumes(w: World, cs: seq<Command>)
    requires w.phase.Stopped? && Dialogue(cs, true) && IsRun(w, Obeyed(cs))
    ensures var v := After(w, Obeyed(cs));
      v.phase.Running? && v.stub == Leave(ApplyAll(w.stub, cs), true, w.phase.at)
    decreases |cs|
  {
    var es := Obeyed(cs);
    assert es[1..] == Obeyed(cs[1..]);
    ApplyFirst(w.stub, cs);
    if |cs| > 1 {
      DialogueResumes(Next(w, es[0]), cs[1..]);
    }
  }
}
