/** An instruction that goes to one of its own bytes, once RST 08 stands there. */
module Z80Patched {
  import opened Machine
  import opened Z80Manual

  lemma PatchedWord(m: Memory, a: word, t: word)
    requires (t == a || t == Inc(a)) && m[t] != RST08
    ensures WordAt(m[t := RST08], a) != WordAt(m, a)
  {
    var m' := m[t := RST08];
    if WordAt(m', a) == WordAt(m, a) {
      WordIsItsBytes(m'[a], m'[Inc(a)], m[a], m[Inc(a)]);
      assert false;
    }
  }

  predicate IsRelative(op: byte) {
    X(op) == 0 && Z(op) == 0 && Y(op) >= 2
  }

  /** A jump or call to a constant address. */
  predicate IsAbsolute(op: byte) {
    op == 0xC3 || op == 0xCD || (X(op) == 3 && (Z(op) == 2 || Z(op) == 4))
  }

  /** Only a jump goes to one of its instruction's operand bytes. */
  lemma GoesInto(m: Memory, cpu: Cpu, pc: word)
    requires Documented(m, pc) && !IsJumpIndex(m, pc) && !IsReturn(m, cpu, pc)
    requires var t := Successor(m, cpu, pc); InFootprint(m, cpu, pc, t) && t != pc
    ensures var t := Successor(m, cpu, pc);
      if IsRelative(m[pc]) then t == Wrap(pc + 1) == Relative(m, pc, true)
      else IsAbsolute(m[pc]) && t == WordAt(m, Wrap(pc + 1)) && (t == Wrap(pc + 1) || t == Inc(Wrap(pc + 1)))
  {
    hide WordAt, Relative;
    var t, op := Successor(m, cpu, pc), m[pc];
    PlainSuccessor(m, cpu, pc);
    OperandOf(pc, t, Length(m, pc));
  }

  lemma PlainSuccessor(m: Memory, cpu: Cpu, pc: word)
    requires Documented(m, pc) && !IsJumpIndex(m, pc) && !IsReturn(m, cpu, pc)
    ensures 1 <= Length(m, pc) <= 4
    ensures IsRelative(m[pc]) ==> Length(m, pc) == 2
    ensures IsAbsolute(m[pc]) ==> Length(m, pc) == 3
    ensures var t := Successor(m, cpu, pc);
      || t == Wrap(pc + Length(m, pc))
      || (IsRelative(m[pc]) && t == Relative(m, pc, true))
      || (IsAbsolute(m[pc]) && t == WordAt(m, Wrap(pc + 1)))
      || Length(m, pc) == 1
  {
  }

  lemma OperandOf(pc: word, t: word, len: nat)
    requires len <= 4
    ensures Wrap(Wrap(pc + len) - pc) == len
    ensures Wrap(t - pc) < len && t != pc ==> len > 1
    ensures Wrap(t - pc) < 2 && t != pc ==> t == Wrap(pc + 1)
    ensures Wrap(t - pc) < 3 && t != pc ==> t == Wrap(pc + 1) || t == Inc(Wrap(pc + 1))
  {
  }

  /** Such an instruction once its operand is patched. */
  lemma StillJumps(m: Memory, m': Memory, cpu: Cpu, pc: word)
    requires m'[pc] == m[pc] && (IsRelative(m[pc]) || IsAbsolute(m[pc]))
    ensures !IsReturn(m', cpu, pc)
    ensures IsRelative(m[pc]) && Successor(m, cpu, pc) == Wrap(pc + 1) ==>
      Successor(m', cpu, pc) == Wrap(pc + 2) || Successor(m', cpu, pc) == Relative(m', pc, true)
    ensures IsAbsolute(m[pc]) ==> Successor(m', cpu, pc) == Wrap(pc + 3) || Successor(m', cpu, pc) == WordAt(m', Wrap(pc + 1))
  {
  }

  /** An instruction that goes to one of its own bytes goes elsewhere once
      RST 08 stands there. */
  lemma PatchedGoesElsewhere(m: Memory, cpu: Cpu, pc: word)
    requires Documented(m, pc) && !IsJumpIndex(m, pc)
    requires var t := Successor(m, cpu, pc); InFootprint(m, cpu, pc, t) && m[t] != RST08 && t != 0x0008
    ensures var t := Successor(m, cpu, pc);
      && Successor(m[t := RST08], cpu, pc) != t
      && (IsReturn(m[t := RST08], cpu, pc) ==> IsReturn(m, cpu, pc))
  {
    var t := Successor(m, cpu, pc);
    if t == pc {
      PatchedOpcode(m[t := RST08], cpu, pc);
    } else if IsReturn(m, cpu, pc) {
      PatchedReturn(m, cpu, pc);
    } else {
      PatchedOperand(m, cpu, pc);
    }
  }

  lemma PatchedOpcode(m: Memory, cpu: Cpu, pc: word)
    requires m[pc] == RST08
    ensures Successor(m, cpu, pc) == 0x0008 && !IsReturn(m, cpu, pc)
  {
  }

  lemma PatchedReturn(m: Memory, cpu: Cpu, pc: word)
    requires IsReturn(m, cpu, pc)
    requires var t := Successor(m, cpu, pc); InFootprint(m, cpu, pc, t) && m[t] != RST08 && t != pc
    ensures var t := Successor(m, cpu, pc); Successor(m[t := RST08], cpu, pc) != t
  {
    hide WordAt, Relative;
    var t := Successor(m, cpu, pc);
    SuccessorBySp(m, cpu, pc, cpu.sp);
    SuccessorBySp(m[t := RST08], cpu, pc, cpu.sp);
    if t == cpu.sp || t == Inc(cpu.sp) {
      PatchedWord(m, cpu.sp, t);
    }
  }

  lemma PatchedOperand(m: Memory, cpu: Cpu, pc: word)
    requires Documented(m, pc) && !IsJumpIndex(m, pc) && !IsReturn(m, cpu, pc)
    requires var t := Successor(m, cpu, pc); InFootprint(m, cpu, pc, t) && m[t] != RST08 && t != pc
    ensures var t := Successor(m, cpu, pc);
      Successor(m[t := RST08], cpu, pc) != t && !IsReturn(m[t := RST08], cpu, pc)
  {
    hide Successor, InFootprint, Documented, IsReturn, IsJumpIndex, WordAt, Relative;
    var t := Successor(m, cpu, pc);
    var m' := m[t := RST08];
    GoesInto(m, cpu, pc);
    StillJumps(m, m', cpu, pc);
    if IsRelative(m[pc]) {
      PatchedDisplacement(m', pc);
    } else {
      PatchedWord(m, Wrap(pc + 1), t);
    }
  }

  lemma PatchedDisplacement(m: Memory, pc: word)
    requires m[Wrap(pc + 1)] == RST08
    ensures Relative(m, pc, true) != Wrap(pc + 1)
  {
  }

  /** The patched instruction is made of no more bytes than before. */
  lemma PatchedFootprint(m: Memory, cpu: Cpu, pc: word, a: word)
    requires Documented(m, pc) && !IsJumpIndex(m, pc)
    requires var t := Successor(m, cpu, pc); InFootprint(m, cpu, pc, t) && m[t] != RST08 && t != 0x0008
    requires InFootprint(m[Successor(m, cpu, pc) := RST08], cpu, pc, a)
    ensures InFootprint(m, cpu, pc, a)
  {
    hide Successor, IsReturn, Documented, IsJumpIndex;
    PatchedGoesElsewhere(m, cpu, pc);
    PatchedLength(m, cpu, pc);
  }

  lemma PatchedLength(m: Memory, cpu: Cpu, pc: word)
    requires Documented(m, pc) && !IsJumpIndex(m, pc) && InFootprint(m, cpu, pc, Successor(m, cpu, pc))
    ensures Length(m[Successor(m, cpu, pc) := RST08], pc) <= Length(m, pc)
  {
    hide Relative, WordAt, IsReturn, Documented, IsJumpIndex;
    var t := Successor(m, cpu, pc);
    if t == pc {
      LengthOfTrap(m[t := RST08], pc);
      LengthIsPositive(m, pc);
    } else if t == Wrap(pc + 1) {
      PatchedSecond(m, cpu, pc);
    }
  }

  lemma LengthOfTrap(m: Memory, pc: word)
    requires m[pc] == RST08
    ensures Length(m, pc) == 1
  {
  }

  lemma LengthIsPositive(m: Memory, pc: word)
    ensures Length(m, pc) >= 1
  {
  }

  lemma PatchedSecond(m: Memory, cpu: Cpu, pc: word)
    requires Documented(m, pc) && !IsJumpIndex(m, pc)
    requires Successor(m, cpu, pc) == Wrap(pc + 1) && InFootprint(m, cpu, pc, Wrap(pc + 1))
    ensures Length(m[Wrap(pc + 1) := RST08], pc) <= Length(m, pc)
  {
  }
}
