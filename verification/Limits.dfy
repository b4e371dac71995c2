/** Where the code relies on its surroundings, what happens when they do not
    oblige, and the exact condition under which it still works. */
module Limits {
  import opened Machine
  import opened GdbState
  import opened Rst8
  import opened Commands
  import opened TableProofs
  import opened Session
  import opened Transparency
  import opened Z80Decode
  import Z80Agreement

  /** A store by the debuggee can be uncovered again just when it is not RST 08
      over a breakpoint that hides another byte. */
  lemma StoreIsSafeExactly(m: Memory, t: Table, logical: Memory, overwritten: set<word>, a: word, v: byte)
    requires Uncoverable(m, t, logical, overwritten)
    ensures Uncoverable(m[a := v], t, logical[a := v], overwritten + {a})
            <==> (v == RST08 ==> Shown(t, a, MAX_BREAKPOINTS_COUNT) == RST08)
  {
    var m', logical' := m[a := v], logical[a := v];
    if v == RST08 && Shown(t, a, MAX_BREAKPOINTS_COUNT) != RST08 {
      assert m'[a] == RST08 == logical'[a];
    } else {
      StoreUnder(m, t, logical, overwritten, a, v);
    }
  }

  /** Ctrl-C while a temporary breakpoint is armed forgets it, which is
      harmless just when that one covers RST 08. At address 0 it always goes
      wrong, because the breakpoint planted there counts as none, and so it
      does at the vector. */
  lemma InterruptIsSafeExactly(w: World, pc: word)
    requires Inv(w) && w.phase.Running? && w.stub.listening
    ensures Inv(Next(w, Interrupt(pc)))
            <==> pc != 0 && !InVector(pc) && (Armed(w.stub) ==> w.stub.temp.original == RST08)
  {
    var s, s' := w.stub, CtrlC(w.stub, pc);
    if pc == 0 {
      assert !Armed(s') && s'.flags.step;
      return;
    }
    assert Under(s') == s.mem && Live(s') == Live(s);
    if Armed(s) {
      var t := s.temp.address;
      assert Under(s)[t] == s.temp.original && s.mem[t] == RST08;
      if s.temp.original == RST08 {
        assert Under(s) == s.mem;
      }
    }
  }

  /** Ctrl-C is heard once between two stops: after every resumption, and after
      the silent end of a step, but not a second time. */
  lemma InterruptIsHeardOnce(w: World, e: Event, pc: word, pc': word)
    requires Possible(w, e) && Next(w, e).phase.Running? && (e.Obey? || e.Trap?)
    ensures var v := Next(w, e);
      var u := Next(v, Interrupt(pc));
      && u.stub.temp == Breakpoint(pc, v.stub.mem[pc]) && u.stub.mem == v.stub.mem[pc := RST08] && u.stub.flags.step
      && Next(u, Interrupt(pc')) == u
  {
    hide Arrive, Apply, PlantTable, ArmTemporary;
  }

  /** What the address of a forgotten temporary breakpoint shows from now on. */
  function ForgottenShows(s: Stub): byte {
    var t, a := s.temp.address, s.table[s.restoreIdx].address;
    if s.flags.restore && a == t then Shown(s.table, a, s.restoreIdx) else Shown(s.table, t, MAX_BREAKPOINTS_COUNT)
  }

  /** The stop that Ctrl-C brings shows the logical memory exactly if the
      entries' saved bytes show the byte under the temporary breakpoint that it
      forgot, and none before a waiting one is stale. */
  lemma InterruptedStopExactly(w: World, pc: word, e: Event)
    requires Inv(w) && w.phase.Running? && w.stub.listening && pc != 0 && !InVector(pc)
    requires e.Trap? && e.at == pc && TrapIsHarmless(CtrlC(w.stub, pc), e)
    requires w.stub.temp.address !in WordSet(e.slot) && w.stub.table[w.stub.restoreIdx].address !in WordSet(e.slot)
    ensures var v := Next(w, Interrupt(pc));
      && Possible(v, e)
      && var u, t, a := Next(v, e), w.stub.temp.address, w.stub.table[w.stub.restoreIdx].address;
      && u.phase == Stopped(pc)
      && (u.stub.mem == u.logical <==>
            && (Armed(w.stub) ==> ForgottenShows(w.stub) == w.logical[t])
            && (w.stub.flags.restore && a != t ==> NotStale(w.stub, w.logical)))
  {
    hide SetWord, TrapIsHarmless, AfterTrap, RunningInv, Arrive, Leave, Vectored, OffVector;
    var s, s1 := w.stub, CtrlC(w.stub, pc);
    var t := s.temp.address;
    var seen := if Armed(s) then w.logical[t := Shown(Live(s), t, MAX_BREAKPOINTS_COUNT)] else w.logical;
    var v := Next(w, Interrupt(pc)).(logical := seen, overwritten := w.overwritten - {t});
    ForgottenUnder(w, pc);
    InterruptedTrap(v, e);
    InterruptedSame(v, Next(w, Interrupt(pc)), e);
    ForgottenSeen(w, s1, e, seen);
  }

  /** Ctrl-C leaves an invariant state whose logical memory has RST 08, or what
      the entries make of it, where the forgotten breakpoint was. */
  lemma ForgottenUnder(w: World, pc: word)
    requires Inv(w) && w.phase.Running? && w.stub.listening && pc != 0 && !InVector(pc)
    ensures var s, t := w.stub, w.stub.temp.address;
      var seen := if Armed(s) then w.logical[t := Shown(Live(s), t, MAX_BREAKPOINTS_COUNT)] else w.logical;
      Inv(Next(w, Interrupt(pc)).(logical := seen, overwritten := w.overwritten - {t}))
  {
    var s, s', t := w.stub, CtrlC(w.stub, pc), w.stub.temp.address;
    var seen := if Armed(s) then w.logical[t := Shown(Live(s), t, MAX_BREAKPOINTS_COUNT)] else w.logical;
    assert Under(s') == s.mem && Live(s') == Live(s);
    if Armed(s) && !Holds(Live(s), t, MAX_BREAKPOINTS_COUNT) {
      ShownWithoutHolder(Live(s), t, MAX_BREAKPOINTS_COUNT);
    }
    forall a: word
      ensures s.mem[a] == if Holds(Live(s), a, MAX_BREAKPOINTS_COUNT) && a !in w.overwritten - {t} then RST08 else seen[a]
      ensures s.mem[a] == RST08 ==> Shown(Live(s), a, MAX_BREAKPOINTS_COUNT) == seen[a]
    {
      assert Under(s)[a] == s.mem[a] || (Armed(s) && a == t);
    }
  }

  /** The trap after Ctrl-C. */
  lemma InterruptedTrap(v: World, e: Event)
    requires Inv(v) && v.phase.Running? && Armed(v.stub) && v.stub.flags.step
    requires e.Trap? && e.at == v.stub.temp.address && TrapIsHarmless(v.stub, e)
    ensures Possible(v, e)
    ensures var u := AfterTrap(v, e);
      && u.phase == Stopped(e.at)
      && u.stub.mem == Seen(Push(v.stub, e), SetWord(v.logical, e.slot, Inc(e.at)))
      && u.logical == SetWord(v.logical, e.slot, Inc(e.at))
  {
    hide SetWord, HarmlessWord, Arrive, Leave, Vectored, RunningInv, Seen;
    TrapSees(v, e);
    PushKeeps(v, e);
    ArmedHere(v);
    TrapEnds(v, e);
    TrapEntry(v, e);
  }

  lemma ArmedHere(v: World)
    requires Inv(v) && v.phase.Running? && Armed(v.stub)
    ensures v.stub.mem[v.stub.temp.address] == RST08
  {
  }

  /** A trap does to the stub what it does whatever the logical memory is. */
  lemma InterruptedSame(v: World, v': World, e: Event)
    requires e.Trap? && v.stub == v'.stub && v.phase == v'.phase && v.entry == v'.entry && v.phase.Running?
    ensures Possible(v, e) == Possible(v', e)
    ensures AfterTrap(v, e).stub == AfterTrap(v', e).stub && AfterTrap(v, e).phase == AfterTrap(v', e).phase
    ensures AfterTrap(v', e).phase.Stopped? ==> AfterTrap(v', e).logical == SetWord(v'.logical, e.slot, Inc(e.at))
  {
  }

  lemma ForgottenSeen(w: World, s1: Stub, e: Event, seen: Memory)
    requires e.Trap? && Inv(w) && w.phase.Running?
    requires s1.table == w.stub.table && s1.restoreIdx == w.stub.restoreIdx && s1.flags.restore == w.stub.flags.restore
    requires w.stub.temp.address !in WordSet(e.slot) && w.stub.table[w.stub.restoreIdx].address !in WordSet(e.slot)
    requires seen == if Armed(w.stub) then w.logical[w.stub.temp.address := Shown(Live(w.stub), w.stub.temp.address, MAX_BREAKPOINTS_COUNT)]
                     else w.logical
    ensures var t, a := w.stub.temp.address, w.stub.table[w.stub.restoreIdx].address;
      Seen(Push(s1, e), SetWord(seen, e.slot, Inc(e.at))) == SetWord(w.logical, e.slot, Inc(e.at)) <==>
        && (Armed(w.stub) ==> ForgottenShows(w.stub) == w.logical[t])
        && (w.stub.flags.restore && a != t ==> NotStale(w.stub, w.logical))
  {
    hide Low, High, Uncoverable;
    var s, t, a := w.stub, w.stub.temp.address, w.stub.table[w.stub.restoreIdx].address;
    var left, right := Seen(Push(s1, e), SetWord(seen, e.slot, Inc(e.at))), SetWord(w.logical, e.slot, Inc(e.at));
    if !s.flags.restore || a != t {
      LiveShows(s, t);
    } else {
      LiveHolds(s, t);
      ShownWithoutHolder(Live(s), t, MAX_BREAKPOINTS_COUNT);
    }
    assert forall b: word :: b != a && b != t ==> left[b] == right[b];
    assert left == right <==> left[t] == right[t] && left[a] == right[a];
  }

  /** A temporary breakpoint at address 0 counts as none: its RST 08 stays. */
  lemma ZeroTargetLeaks(s: Stub, logical: Memory)
    requires Uncoverable(s.mem, Live(s), logical, {}) && (s.flags.restore ==> Waiting(s))
    requires s.flags.step || s.flags.restore
    ensures RunningInv(ArmTemporary(s), logical, {}) <==> StepTarget(s) != 0
    ensures StepTarget(s) == 0 ==> Under(ArmTemporary(s)) == s.mem[0 := RST08]
  {
    if StepTarget(s) != 0 {
      ArmedUnder(s, logical);
    }
  }

  // ---- the trap vector ----

  /** The decoder sends RST 08 to its vector. */
  lemma TrapOpcodeGoesToVector(m: Memory, regs: Registers)
    requires m[regs[REGISTERS_PC]] == RST08
    ensures NextPc(m, regs) == 0x0008
  {
    hide First, OpcMain, MainEntry;
    var row := MainEntry(RST08);
    Z80Agreement.MainEntryAgrees(RST08);
    assert Z80Agreement.HandlerOf(RST08) == Rst;
    assert row.fp == Rst && row.mask == 0xC7;
    assert Condition(RST08, 0xC7) == 1;
  }

  /** Stepping a RST 08 that belongs to the program aims at the vector. */
  lemma TrapOpcodeTargetsVector(s: Stub)
    requires s.mem[s.regs[REGISTERS_PC]] == RST08 && !s.flags.force
    ensures StepTarget(Planted(s)) == 0x0008
  {
    hide NextPc;
    PlantPrefix(s.mem, s.table, s.regs[REGISTERS_PC], MAX_BREAKPOINTS_COUNT);
    TrapOpcodeGoesToVector(Planted(s).mem, s.regs);
  }

  /** Resuming writes to the vector exactly if an entry lies on it, away from
      the PC, or the step's target does, and RST 08 is not there already. */
  lemma VectorSurvivesExactly(s: Stub)
    ensures var s1 := Planted(s);
      (forall a: word :: InVector(a) ==> ArmTemporary(s1).mem[a] == s.mem[a])
      <==> (forall a: word :: InVector(a) && s.mem[a] != RST08 ==>
              && !(Holds(s.table, a, MAX_BREAKPOINTS_COUNT) && a != s.regs[REGISTERS_PC])
              && !((s1.flags.step || s1.flags.restore) && StepTarget(s1) == a))
  {
    hide StepTarget;
    var s1 := Planted(s);
    PlantPrefix(s.mem, s.table, s.regs[REGISTERS_PC], MAX_BREAKPOINTS_COUNT);
    forall a: word
      ensures ArmTemporary(s1).mem[a] ==
        if (s1.flags.step || s1.flags.restore) && StepTarget(s1) == a then RST08
        else if Holds(s.table, a, MAX_BREAKPOINTS_COUNT) && a != s.regs[REGISTERS_PC] then RST08
        else s.mem[a]
    {
    }
  }

  /** Without its vector the stub is never entered. */
  lemma NoTrapWithoutVector(w: World, e: Event)
    requires w.stub.mem[0x0008] == RST08 && e.Trap? && 0x0008 !in WordSet(e.slot)
    ensures !Possible(w, e)
  {
    assert Push(w.stub, e).mem[0x0008] == RST08;
  }

  // ---- a stop elsewhere ----

  /** A stop elsewhere than at the armed temporary breakpoint does not undo it.
      Memory comes out right exactly if the entries show the byte it hides, and
      none of them spoils a RST 08 of the program at the address that waits. */
  lemma MissedTemporary(s: Stub, logical: Memory, overwritten: set<word>)
    requires RunningInv(s, logical, overwritten) && Armed(s) && !AtTemporary(s)
    ensures Reports(s)
    ensures var t, a := s.temp.address, s.table[s.restoreIdx].address;
      Arrive(s).mem == logical <==>
        && Shown(s.table, t, MAX_BREAKPOINTS_COUNT) == logical[t]
        && (s.flags.restore && logical[a] == RST08 ==> Shown(s.table, a, MAX_BREAKPOINTS_COUNT) == RST08)
  {
    var t, a := s.temp.address, s.table[s.restoreIdx].address;
    RetireShows(s.mem, s.table, MAX_BREAKPOINTS_COUNT);
    forall b: word
      ensures Arrive(s).mem[b] ==
        if b == t then Shown(s.table, t, MAX_BREAKPOINTS_COUNT)
        else if s.flags.restore && b == a && logical[a] == RST08 then Shown(s.table, a, MAX_BREAKPOINTS_COUNT)
        else logical[b]
    {
      LiveHolds(s, b);
      if !s.flags.restore || b != a {
        LiveShows(s, b);
      }
      assert Under(s)[b] == s.mem[b] || b == t;
    }
    assert Arrive(s).mem == logical <==> forall b: word :: Arrive(s).mem[b] == logical[b] by {
      assert |Arrive(s).mem| == |logical|;
    }
  }

  /** Where no entry is, the missed breakpoint stays. */
  lemma MissedStays(s: Stub, logical: Memory, overwritten: set<word>)
    requires RunningInv(s, logical, overwritten) && Armed(s) && !AtTemporary(s)
    requires !Holds(s.table, s.temp.address, MAX_BREAKPOINTS_COUNT)
    ensures Arrive(s).mem[s.temp.address] == RST08
  {
    RetireShows(s.mem, s.table, MAX_BREAKPOINTS_COUNT);
    ShownWithoutHolder(s.table, s.temp.address, MAX_BREAKPOINTS_COUNT);
  }

  /** What such a stop makes of the breakpoint that waited: the last entry at
      its address is dropped exactly if it does not find RST 08. */
  lemma MissedWaiting(s: Stub, logical: Memory, overwritten: set<word>)
    requires RunningInv(s, logical, overwritten) && Armed(s) && !AtTemporary(s) && s.flags.restore
    ensures var r, a := s.restoreIdx, s.table[s.restoreIdx].address;
      Arrive(s).table[r].address == 0 <==>
        if a == s.temp.address || logical[a] == RST08 then Shown(s.table, a, r) != RST08 else true
  {
    RetireShows(s.mem, s.table, MAX_BREAKPOINTS_COUNT);
    LiveHolds(s, s.table[s.restoreIdx].address);
    assert Under(s)[s.table[s.restoreIdx].address] == logical[s.table[s.restoreIdx].address];
  }

  // ---- several entries at the PC ----

  /** The byte that entry `i` has saved decides, if it is the first and not
      RST 08. */
  lemma {:induction false} FirstDecides(t: Table, i: Slot, n: nat)
    requires i < n <= MAX_BREAKPOINTS_COUNT && t[i].address != 0 && !Holds(t, t[i].address, i)
    requires t[i].original != RST08
    ensures Shown(t, t[i].address, n) == t[i].original
  {
    if n == i + 1 {
      ShownWithoutHolder(t, t[i].address, i);
    } else {
      FirstDecides(t, i, n - 1);
    }
  }

  /** The end of the temporary breakpoint keeps the session's invariant exactly
      if no entry before the last has saved a stale byte. */
  lemma StaleExactly(w: World, e: Event)
    requires Inv(w) && w.phase.Running? && e.Trap? && Possible(w, e)
    requires (Armed(w.stub) ==> e.at == w.stub.temp.address) && TrapIsHarmless(w.stub, e)
    requires w.stub.flags.restore ==> w.stub.table[w.stub.restoreIdx].address !in WordSet(e.slot)
    ensures Inv(Next(w, e)) <==> NotStale(w.stub, SetWord(w.logical, e.slot, Inc(e.at)))
  {
    hide TrapIsHarmless, AfterTrap, Uncoverable, Waiting, Vectored, OffVector;
    if Undisturbed(w, e) {
      TrapKeeps(w, e);
    } else {
      StaleShows(w, e);
    }
  }

  /** What a stale byte leads to: a world that behaves as if it were the
      program's own. */
  lemma StaleShows(w: World, e: Event)
    requires Inv(w) && w.phase.Running? && e.Trap? && Possible(w, e) && w.stub.flags.restore
    requires e.at == w.stub.temp.address && TrapIsHarmless(w.stub, e)
    requires w.stub.table[w.stub.restoreIdx].address !in WordSet(e.slot)
    ensures var a, shown := w.stub.table[w.stub.restoreIdx].address, WaitingShows(w.stub, w.logical);
      var u := Next(w, e);
      && Inv(u.(logical := u.logical[a := shown]))
      && u.logical[a] == w.logical[a]
      && (Inv(u) <==> shown == w.logical[a])
      && u.phase.Running? == !w.stub.flags.step && !Armed(u.stub) && !u.stub.flags.restore
  {
    hide Low, High, Arrive, Leave, RunningInv, HarmlessWord, Vectored, OffVector;
    var a, shown := w.stub.table[w.stub.restoreIdx].address, WaitingShows(w.stub, w.logical);
    var s, logical := Push(w.stub, e), SetWord(w.logical, e.slot, Inc(e.at));
    var u := Next(w, e);
    PushKeeps(w, e);
    RestoreMeansTemporary(s, logical, w.overwritten + WordSet(e.slot));
    TrapSees(w, e);
    assert logical[a] == w.logical[a];
    assert Seen(s, logical) == logical[a := shown];
    SetWordElsewhere(logical, e.slot, e.at, a, shown);
    TrapEntry(w, e);
    TrapEnds(w, e);
    assert u.logical[a := shown] == if u.phase.Stopped? then logical[a := shown] else SetWord(logical[a := shown], e.slot, e.at);
    StaleInv(u, a, shown);
  }

  lemma StaleInv(u: World, a: word, shown: byte)
    requires Inv(u.(logical := u.logical[a := shown]))
    ensures Inv(u) <==> shown == u.logical[a]
  {
    var logical' := u.logical[a := shown];
    if Inv(u) && u.phase.Running? {
      LogicalIsDetermined(u.stub, u.logical, logical', u.overwritten);
    }
    assert logical'[a] == shown;
    assert shown == u.logical[a] ==> logical' == u.logical;
  }

  lemma TrapEnds(w: World, e: Event)
    requires e.Trap? && w.phase.Running? && AtTemporary(Push(w.stub, e))
    ensures var u := AfterTrap(w, e);
      && u.phase.Running? == !w.stub.flags.step
      && !Armed(u.stub) && !u.stub.flags.restore
      && u.entry == w.entry
  {
  }

  /** The running stub's state tells what the logical memory is. */
  lemma LogicalIsDetermined(s: Stub, logical: Memory, logical': Memory, overwritten: set<word>)
    requires RunningInv(s, logical, overwritten) && RunningInv(s, logical', overwritten)
    ensures logical == logical'
  {
    forall a: word
      ensures logical[a] == logical'[a]
    {
    }
    assert forall i :: 0 <= i < |logical| ==> logical[i] == logical'[i];
  }

  lemma SetWordElsewhere(m: Memory, slot: word, v: word, a: word, b: byte)
    requires a !in WordSet(slot)
    ensures SetWord(m[a := b], slot, v) == SetWord(m, slot, v)[a := b]
  {
  }

  // ---- from one stop to the next but one ----

  /** No store hits `a`. */
  predicate Spares(es: seq<Event>, a: word) {
    forall i :: 0 <= i < |es| && es[i].Store? ==> es[i].a != a
  }

  lemma {:induction false} StoresSpare(m: Memory, es: seq<Event>, a: word, b: byte)
    requires AreStores(es) && Spares(es, a)
    ensures StoreAll(m[a := b], es) == StoreAll(m, es)[a := b] && StoreAll(m, es)[a] == m[a]
    decreases |es|
  {
    if es != [] {
      var m' := m[es[0].a := es[0].v];
      assert m[a := b][es[0].a := es[0].v] == m'[a := b];
      StoresSpare(m', es[1..], a, b);
    }
  }

  /** The program runs the same whatever the logical memory is. */
  lemma {:induction false} StoresOn(w: World, es: seq<Event>, logical: Memory)
    requires AreStores(es) && IsRun(w, es)
    ensures IsRun(w.(logical := logical), es)
    ensures After(w.(logical := logical), es) == After(w, es).(logical := StoreAll(logical, es))
    decreases |es|
  {
    if es != [] {
      StoresOn(Next(w, es[0]), es[1..], logical[es[0].a := es[0].v]);
    }
  }

  /** The debuggee is stopped on `n` entries at the PC and continues. The last
      of them waits; the temporary breakpoint ends silently; and the next trap
      is shown to GDB. Then memory is right exactly if the first byte other
      than RST 08 that the entries before the last had saved, at whatever time,
      is the program's byte. */
  lemma DuplicatesAtPc(w: World, es: seq<Event>, e: Event, es': seq<Event>, e': Event)
    requires Inv(w) && w.phase.Stopped? && Assumed(w, Obey(Continue))
    requires Holds(w.stub.table, w.stub.regs[REGISTERS_PC], MAX_BREAKPOINTS_COUNT)
    requires var w1 := Next(w, Obey(Continue));
      && AreStores(es) && IsRun(w1, es) && AreStores(es')
      && var v1 := After(w1, es);
      && e.Trap? && e.at == v1.stub.temp.address && TrapIsHarmless(v1.stub, e) && Possible(v1, e)
      && var w2 := Next(v1, e);
      && IsRun(w2, es')
      && var v2 := After(w2, es');
      && e'.Trap? && TrapIsHarmless(v2.stub, e') && Possible(v2, e')
    requires var pc := w.stub.regs[REGISTERS_PC];
      && Spares(es, pc) && Spares(es', pc)
      && pc !in WordSet(w.stub.sp) && pc !in WordSet(e.slot) && pc !in WordSet(e'.slot)
    ensures var pc, t := w.stub.regs[REGISTERS_PC], w.stub.table;
      var saved := Shown(t, pc, Deferred(t, pc, MAX_BREAKPOINTS_COUNT, w.stub.restoreIdx));
      var shown := if saved == RST08 then w.logical[pc] else saved;
      var v1 := After(Next(w, Obey(Continue)), es);
      var w3 := Next(After(Next(v1, e), es'), e');
      && Next(v1, e).phase.Running?
      && w3.phase == Stopped(e'.at)
      && w3.stub.mem == w3.logical[pc := shown]
      && (w3.stub.mem == w3.logical <==> shown == w.logical[pc])
  {
    hide Low, High, Assumed, SetWord, TrapIsHarmless, Inv, Vectored, AfterTrap, AfterCommand;
    var pc, t := w.stub.regs[REGISTERS_PC], w.stub.table;
    var w1 := Next(w, Obey(Continue));
    ContinueWaits(w);
    RunKeeps(w1, es);
    StoresTouchMemoryOnly(w1, es);
    StoresSpare(w1.logical, es, pc, 0);
    StaleNextStop(After(w1, es), e, es', e');
  }

  /** The stop after the silent end of a temporary breakpoint. */
  lemma StaleNextStop(w: World, e: Event, es: seq<Event>, e': Event)
    requires Inv(w) && w.phase.Running? && w.stub.flags.restore && !w.stub.flags.step
    requires e.Trap? && e.at == w.stub.temp.address && TrapIsHarmless(w.stub, e) && Possible(w, e)
    requires AreStores(es) && IsRun(Next(w, e), es)
    requires var v := After(Next(w, e), es);
      e'.Trap? && TrapIsHarmless(v.stub, e') && Possible(v, e')
    requires var a := w.stub.table[w.stub.restoreIdx].address;
      a !in WordSet(e.slot) && a !in WordSet(e'.slot) && Spares(es, a)
    ensures var a, shown := w.stub.table[w.stub.restoreIdx].address, WaitingShows(w.stub, w.logical);
      var u := Next(After(Next(w, e), es), e');
      && Next(w, e).phase.Running?
      && u.phase == Stopped(e'.at) && u.stub.mem == u.logical[a := shown] && u.logical[a] == w.logical[a]
  {
    hide Low, High, SetWord, TrapIsHarmless, Inv, Vectored, AfterTrap, WaitingShows, Assumed;
    var a, shown := w.stub.table[w.stub.restoreIdx].address, WaitingShows(w.stub, w.logical);
    StaleShows(w, e);
    var u := Next(w, e);
    StoresTouchMemoryOnly(u, es);
    StoresOn(u, es, u.logical[a := shown]);
    StoresSpare(u.logical, es, a, shown);
    RunKeeps(u.(logical := u.logical[a := shown]), es);
    SeenNext(After(u, es), a, shown, e');
  }

  /** After `c` on a breakpoint, its last entry waits. */
  lemma ContinueWaits(w: World)
    requires Inv(w) && w.phase.Stopped? && Assumed(w, Obey(Continue))
    requires Holds(w.stub.table, w.stub.regs[REGISTERS_PC], MAX_BREAKPOINTS_COUNT)
    ensures var w1, pc := Next(w, Obey(Continue)), w.stub.regs[REGISTERS_PC];
      && Inv(w1) && w1.phase.Running?
      && w1.stub.flags.restore && !w1.stub.flags.step && Armed(w1.stub)
      && w1.stub.restoreIdx == Deferred(w.stub.table, pc, MAX_BREAKPOINTS_COUNT, w.stub.restoreIdx)
      && w1.stub.table[w1.stub.restoreIdx].address == pc
      && Shown(w1.stub.table, pc, w1.stub.restoreIdx) == Shown(w.stub.table, pc, w1.stub.restoreIdx)
      && (pc !in WordSet(w.stub.sp) ==> w1.logical[pc] == w.logical[pc])
  {
    hide StepTarget, Low, High, Uncoverable, HarmlessWord;
    ResumeKeeps(w, Continue);
    PlantedUnder(w.stub, w.logical);
    var w1, pc := Next(w, Obey(Continue)), w.stub.regs[REGISTERS_PC];
    DeferredIsLast(w.stub.table, pc, MAX_BREAKPOINTS_COUNT, w.stub.restoreIdx);
    ShownBelow(w1.stub.table, w.stub.table, pc, w1.stub.restoreIdx);
  }

  /** A stop that uncovers a memory other than the logical one at `a`. */
  lemma SeenNext(v: World, a: word, shown: byte, e: Event)
    requires Inv(v.(logical := v.logical[a := shown])) && v.phase.Running? && !Armed(v.stub) && !v.stub.flags.restore
    requires e.Trap? && Possible(v, e) && TrapIsHarmless(v.stub, e) && a !in WordSet(e.slot)
    ensures var u := Next(v, e);
      && u.phase == Stopped(e.at) && u.stub.mem == u.logical[a := shown] && u.logical[a] == v.logical[a]
  {
    hide Low, High, Arrive, Leave, HarmlessWord;
    TrapSees(v.(logical := v.logical[a := shown]), e);
    SetWordElsewhere(v.logical, e.slot, Inc(e.at), a, shown);
  }
}
