/** Where a Z80 goes next, written from the opcode fields x = op >> 6,
    y = (op >> 3) & 7 and z = op & 7 as in the instruction set chapter of the
    Zilog Z80 CPU User Manual (UM0080). It knows nothing of the stub's tables. */
module Z80Manual {
  import opened Machine

  datatype Cpu = Cpu(af: word, bc: word, hl: word, sp: word, ix: word, iy: word)

  function X(op: byte): byte { op >> 6 }
  function Y(op: byte): byte { (op >> 3) & 7 }
  function Z(op: byte): byte { op & 7 }

  /** Two's complement displacement. */
  function Displacement(e: byte): int {
    if e & 0x80 == 0 then e as int else e as int - 256
  }

  /** Condition codes in pairs over Z, C, P/V and S; odd codes want the flag set. */
  predicate Condition(cc: byte, f: byte) {
    var flag := if cc >> 1 == 0 then (f >> 6) & 1 else if cc >> 1 == 1 then f & 1
                else if cc >> 1 == 2 then (f >> 2) & 1 else f >> 7;
    flag == cc & 1
  }

  predicate IsIndexPrefix(op: byte) { op == 0xDD || op == 0xFD }

  /** Bytes of an instruction that begins with neither ED, DD nor FD. */
  function PlainLength(op: byte): nat {
    var y, z := Y(op), Z(op);
    if X(op) == 0 then
      if z == 0 then (if y >= 2 then 2 else 1)
      else if z == 1 then (if y & 1 == 0 then 3 else 1)
      else if z == 2 then (if y >= 4 then 3 else 1)
      else if z == 6 then 2
      else 1
    else if X(op) == 3 then
      if z == 2 || z == 4 then 3
      else if z == 3 then (if y == 0 then 3 else if y <= 3 then 2 else 1)
      else if z == 5 then (if y == 1 then 3 else 1)
      else if z == 6 then 2
      else 1
    else 1
  }

  /** Opcodes with the operand (HL), which an index prefix turns into (IX+d). */
  predicate UsesMemory(op: byte) {
    var x, y, z := X(op), Y(op), Z(op);
    || (x == 0 && 4 <= z <= 6 && y == 6)
    || (x == 1 && (y == 6) != (z == 6))
    || (x == 2 && z == 6)
  }

  /** Opcodes that name HL, H or L, which an index prefix redirects. */
  predicate UsesHL(op: byte) {
    var x, y, z := X(op), Y(op), Z(op);
    || (x == 0 && z == 1 && (y & 1 == 1 || y == 4))
    || (x == 0 && z == 2 && (y == 4 || y == 5))
    || (x == 0 && z == 3 && (y == 4 || y == 5))
    || (x == 0 && 4 <= z <= 6 && (y == 4 || y == 5))
    || (x == 1 && y != 6 && z != 6 && (y == 4 || y == 5 || z == 4 || z == 5))
    || (x == 2 && (z == 4 || z == 5))
    || op == 0xE1 || op == 0xE3 || op == 0xE5 || op == 0xE9 || op == 0xF9
  }

  /** The ED page as documented. */
  predicate DocumentedEd(op: byte) {
    var x, y, z := X(op), Y(op), Z(op);
    || (x == 1 && z <= 3)
    || op == 0x44                                                // NEG
    || op == 0x45 || op == 0x4D                                  // RETN, RETI
    || op == 0x46 || op == 0x56 || op == 0x5E                    // IM 0, 1, 2
    || (x == 1 && z == 7 && y <= 5)                              // LD I/R, RRD, RLD
    || (x == 2 && y >= 4 && z <= 3)                              // block instructions
  }

  predicate IsReturnEd(op: byte) { op == 0x45 || op == 0x4D }

  /** All documented instructions, and the well known forms on the halves of
      IX and IY. */
  predicate Documented(m: Memory, pc: word) {
    var op, next := m[pc], m[Wrap(pc + 1)];
    if op == 0xED then DocumentedEd(next)
    else if IsIndexPrefix(op) then next == 0xCB || UsesHL(next) || UsesMemory(next)
    else true
  }

  predicate IsJumpIndex(m: Memory, pc: word) {
    IsIndexPrefix(m[pc]) && m[Wrap(pc + 1)] == 0xE9
  }

  function Length(m: Memory, pc: word): nat {
    var op, next := m[pc], m[Wrap(pc + 1)];
    if op == 0xED then (if X(next) == 1 && Z(next) == 3 then 4 else 2)
    else if IsIndexPrefix(op) then
      if next == 0xCB then 4
      else 1 + PlainLength(next) + (if UsesMemory(next) then 1 else 0)
    else PlainLength(op)
  }

  /** A jump to itself plus displacement, or not taken. */
  function Relative(m: Memory, pc: word, taken: bool): word {
    if taken then Wrap(pc + 2 + Displacement(m[Wrap(pc + 1)])) else Wrap(pc + 2)
  }

  function Absolute(m: Memory, pc: word, taken: bool): word {
    if taken then WordAt(m, Wrap(pc + 1)) else Wrap(pc + 3)
  }

  /** The architectural next PC. Repeating block instructions count as run to
      completion and HALT as resumed. */
  function Successor(m: Memory, cpu: Cpu, pc: word): word {
    var op := m[pc];
    var x, y, z := X(op), Y(op), Z(op);
    if op == 0xED && IsReturnEd(m[Wrap(pc + 1)]) then WordAt(m, cpu.sp)
    else if IsJumpIndex(m, pc) then (if op == 0xDD then cpu.ix else cpu.iy)
    else if op == 0xED || IsIndexPrefix(op) then Wrap(pc + Length(m, pc))
    else if x == 0 && z == 0 && y == 2 then Relative(m, pc, High(cpu.bc) - 1 != 0)
    else if x == 0 && z == 0 && y >= 3 then Relative(m, pc, y == 3 || Condition(y - 4, Low(cpu.af)))
    else if x == 3 && z == 0 && Condition(y, Low(cpu.af)) then WordAt(m, cpu.sp)
    else if op == 0xC9 then WordAt(m, cpu.sp)
    else if op == 0xE9 then cpu.hl
    else if op == 0xC3 || op == 0xCD then Absolute(m, pc, true)
    else if x == 3 && (z == 2 || z == 4) then Absolute(m, pc, Condition(y, Low(cpu.af)))
    else if x == 3 && z == 7 then (op & 0x38) as int
    else Wrap(pc + PlainLength(op))
  }

  predicate IsReturn(m: Memory, cpu: Cpu, pc: word) {
    var op := m[pc];
    || op == 0xC9
    || (X(op) == 3 && Z(op) == 0 && Condition(Y(op), Low(cpu.af)))
    || (op == 0xED && IsReturnEd(m[Wrap(pc + 1)]))
  }

  /** The bytes a CPU reads to know where it goes next. */
  predicate InFootprint(m: Memory, cpu: Cpu, pc: word, a: word) {
    || Wrap(a - pc) < Length(m, pc)
    || (IsReturn(m, cpu, pc) && (a == cpu.sp || a == Wrap(cpu.sp + 1)))
  }

  /** `m'` agrees with `m` on the footprint of the instruction at `pc`. */
  ghost predicate SameFootprint(m: Memory, m': Memory, cpu: Cpu, pc: word) {
    forall a: word :: InFootprint(m, cpu, pc, a) ==> m'[a] == m[a]
  }

  lemma FootprintBytes(m: Memory, m': Memory, cpu: Cpu, pc: word)
    requires SameFootprint(m, m', cpu, pc)
    ensures m'[pc] == m[pc]
    ensures Length(m, pc) >= 2 ==> m'[Wrap(pc + 1)] == m[Wrap(pc + 1)]
    ensures Length(m, pc) >= 3 ==> WordAt(m', Wrap(pc + 1)) == WordAt(m, Wrap(pc + 1))
    ensures IsReturn(m, cpu, pc) ==> WordAt(m', cpu.sp) == WordAt(m, cpu.sp)
  {
    var len := Length(m, pc);
    assert InFootprint(m, cpu, pc, pc);
    if len >= 2 {
      assert InFootprint(m, cpu, pc, Wrap(pc + 1));
    }
    if len >= 3 {
      assert InFootprint(m, cpu, pc, Wrap(Wrap(pc + 1) + 1));
    }
    if IsReturn(m, cpu, pc) {
      assert InFootprint(m, cpu, pc, cpu.sp) && InFootprint(m, cpu, pc, Wrap(cpu.sp + 1));
    }
  }

  lemma SuccessorDependsOnFootprint(m: Memory, m': Memory, cpu: Cpu, pc: word)
    requires SameFootprint(m, m', cpu, pc)
    ensures Successor(m', cpu, pc) == Successor(m, cpu, pc)
    ensures Documented(m', pc) == Documented(m, pc)
  {
    FootprintBytes(m, m', cpu, pc);
  }

  lemma ReturnDependsOnFootprint(m: Memory, m': Memory, cpu: Cpu, pc: word)
    requires SameFootprint(m, m', cpu, pc)
    ensures IsReturn(m', cpu, pc) == IsReturn(m, cpu, pc)
  {
    FootprintBytes(m, m', cpu, pc);
  }

  /** Only a return that is taken looks at SP. */
  lemma SuccessorBySp(m: Memory, cpu: Cpu, pc: word, sp: word)
    ensures Successor(m, cpu.(sp := sp), pc) == if IsReturn(m, cpu, pc) then WordAt(m, sp) else Successor(m, cpu, pc)
    ensures IsReturn(m, cpu, pc) ==> Successor(m, cpu, pc) == WordAt(m, cpu.sp)
  {
  }
}
