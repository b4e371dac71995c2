/** The stub's next-instruction decoder: three value/mask tables scanned for
    the first row that matches, and a pseudo-evaluator per row. */
module Z80Decode {
  import opened Machine
  import opened GdbState

  datatype Handler =
    | Dummy | Djnz | Jr | JrCc | RetCc | JpCcNn | JpNn | Rst | Ret | JpHl
    | PrefCb | PrefEd | PrefInd | PrefXdCb

  datatype TabElt = TabElt(val: byte, mask: byte, fp: Handler, len: nat)

  /** Opcodes without a prefix. */
  function MainRow(i: nat): TabElt
    requires i < 55
  {
    match i
    case 0 => TabElt(0x00, 0xFF, Dummy, 1)
    case 1 => TabElt(0x01, 0xCF, Dummy, 3)
    case 2 => TabElt(0x02, 0xFF, Dummy, 1)
    case 3 => TabElt(0x03, 0xCF, Dummy, 1)
    case 4 => TabElt(0x04, 0xC7, Dummy, 1)
    case 5 => TabElt(0x05, 0xC7, Dummy, 1)
    case 6 => TabElt(0x06, 0xC7, Dummy, 2)
    case 7 => TabElt(0x07, 0xFF, Dummy, 1)
    case 8 => TabElt(0x08, 0xFF, Dummy, 1)
    case 9 => TabElt(0x09, 0xCF, Dummy, 1)
    case 10 => TabElt(0x0A, 0xFF, Dummy, 1)
    case 11 => TabElt(0x0B, 0xCF, Dummy, 1)
    case 12 => TabElt(0x0F, 0xFF, Dummy, 1)
    case 13 => TabElt(0x10, 0xFF, Djnz, 2)
    case 14 => TabElt(0x12, 0xFF, Dummy, 1)
    case 15 => TabElt(0x17, 0xFF, Dummy, 1)
    case 16 => TabElt(0x18, 0xFF, Jr, 2)
    case 17 => TabElt(0x1A, 0xFF, Dummy, 1)
    case 18 => TabElt(0x1F, 0xFF, Dummy, 1)
    case 19 => TabElt(0x20, 0xE7, JrCc, 2)
    case 20 => TabElt(0x22, 0xFF, Dummy, 3)
    case 21 => TabElt(0x27, 0xFF, Dummy, 1)
    case 22 => TabElt(0x2A, 0xFF, Dummy, 3)
    case 23 => TabElt(0x2F, 0xFF, Dummy, 1)
    case 24 => TabElt(0x32, 0xFF, Dummy, 3)
    case 25 => TabElt(0x37, 0xFF, Dummy, 1)
    case 26 => TabElt(0x3A, 0xFF, Dummy, 3)
    case 27 => TabElt(0x3F, 0xFF, Dummy, 1)
    case 28 => TabElt(0x76, 0xFF, Dummy, 1)
    case 29 => TabElt(0x40, 0xC0, Dummy, 1)
    case 30 => TabElt(0x80, 0xC0, Dummy, 1)
    case 31 => TabElt(0xC0, 0xC7, RetCc, 1)
    case 32 => TabElt(0xC1, 0xCF, Dummy, 1)
    case 33 => TabElt(0xC2, 0xC7, JpCcNn, 3)
    case 34 => TabElt(0xC3, 0xFF, JpNn, 3)
    case 35 => TabElt(0xC4, 0xC7, JpCcNn, 3)
    case 36 => TabElt(0xC5, 0xCF, Dummy, 1)
    case 37 => TabElt(0xC6, 0xC7, Dummy, 2)
    case 38 => TabElt(0xC7, 0xC7, Rst, 1)
    case 39 => TabElt(0xC9, 0xFF, Ret, 1)
    case 40 => TabElt(0xCB, 0xFF, PrefCb, 2)
    case 41 => TabElt(0xCD, 0xFF, JpNn, 3)
    case 42 => TabElt(0xD3, 0xFF, Dummy, 2)
    case 43 => TabElt(0xD9, 0xFF, Dummy, 1)
    case 44 => TabElt(0xDB, 0xFF, Dummy, 2)
    case 45 => TabElt(0xDD, 0xFF, PrefInd, 0)
    case 46 => TabElt(0xE3, 0xFF, Dummy, 1)
    case 47 => TabElt(0xE9, 0xFF, JpHl, 1)
    case 48 => TabElt(0xEB, 0xFF, Dummy, 1)
    case 49 => TabElt(0xED, 0xFF, PrefEd, 0)
    case 50 => TabElt(0xF3, 0xFF, Dummy, 1)
    case 51 => TabElt(0xF9, 0xFF, Dummy, 1)
    case 52 => TabElt(0xFB, 0xFF, Dummy, 1)
    case 53 => TabElt(0xFD, 0xFF, PrefInd, 0)
    case _ => TabElt(0x00, 0x00, Dummy, 1)
  }

  function OpcMain(): (t: seq<TabElt>)
    ensures Terminated(t)
  {
    seq(55, i requires 0 <= i < 55 => MainRow(i))
  }

  /** ED-prefixed opcodes; the length includes the prefix. */
  function EdRow(i: nat): TabElt
    requires i < 27
  {
    match i
    case 0 => TabElt(0x70, 0xFF, Dummy, 2)
    case 1 => TabElt(0x70, 0xFF, Dummy, 2)
    case 2 => TabElt(0x40, 0xC7, Dummy, 2)
    case 3 => TabElt(0x71, 0xFF, Dummy, 2)
    case 4 => TabElt(0x70, 0xFF, Dummy, 2)
    case 5 => TabElt(0x41, 0xC7, Dummy, 2)
    case 6 => TabElt(0x42, 0xCF, Dummy, 2)
    case 7 => TabElt(0x43, 0xCF, Dummy, 4)
    case 8 => TabElt(0x44, 0xFF, Dummy, 2)
    case 9 => TabElt(0x45, 0xFF, Ret, 2)
    case 10 => TabElt(0x46, 0xFF, Dummy, 2)
    case 11 => TabElt(0x47, 0xFF, Dummy, 2)
    case 12 => TabElt(0x4A, 0xCF, Dummy, 2)
    case 13 => TabElt(0x4B, 0xCF, Dummy, 4)
    case 14 => TabElt(0x4D, 0xFF, Ret, 2)
    case 15 => TabElt(0x4F, 0xFF, Dummy, 2)
    case 16 => TabElt(0x56, 0xFF, Dummy, 2)
    case 17 => TabElt(0x57, 0xFF, Dummy, 2)
    case 18 => TabElt(0x5E, 0xFF, Dummy, 2)
    case 19 => TabElt(0x5F, 0xFF, Dummy, 2)
    case 20 => TabElt(0x67, 0xFF, Dummy, 2)
    case 21 => TabElt(0x6F, 0xFF, Dummy, 2)
    case 22 => TabElt(0xA0, 0xE4, Dummy, 2)
    case 23 => TabElt(0xC3, 0xFF, Dummy, 2)
    case 24 => TabElt(0xC5, 0xE7, Dummy, 2)
    case 25 => TabElt(0xF3, 0xFF, Dummy, 2)
    case _ => TabElt(0x00, 0x00, Dummy, 2)
  }

  function OpcEd(): (t: seq<TabElt>)
    ensures Terminated(t)
  {
    seq(27, i requires 0 <= i < 27 => EdRow(i))
  }

  /** DD- and FD-prefixed opcodes; the length leaves the prefix out. */
  function IndexRow(i: nat): TabElt
    requires i < 28
  {
    match i
    case 0 => TabElt(0x24, 0xF7, Dummy, 1)
    case 1 => TabElt(0x25, 0xF7, Dummy, 1)
    case 2 => TabElt(0x26, 0xF7, Dummy, 2)
    case 3 => TabElt(0x21, 0xFF, Dummy, 3)
    case 4 => TabElt(0x22, 0xFF, Dummy, 3)
    case 5 => TabElt(0x2A, 0xFF, Dummy, 3)
    case 6 => TabElt(0x23, 0xFF, Dummy, 1)
    case 7 => TabElt(0x2B, 0xFF, Dummy, 1)
    case 8 => TabElt(0x29, 0xFF, Dummy, 1)
    case 9 => TabElt(0x09, 0xCF, Dummy, 1)
    case 10 => TabElt(0x34, 0xFF, Dummy, 2)
    case 11 => TabElt(0x35, 0xFF, Dummy, 2)
    case 12 => TabElt(0x36, 0xFF, Dummy, 3)
    case 13 => TabElt(0x76, 0xFF, Dummy, 1)
    case 14 => TabElt(0x46, 0xC7, Dummy, 2)
    case 15 => TabElt(0x70, 0xF8, Dummy, 2)
    case 16 => TabElt(0x64, 0xF6, Dummy, 1)
    case 17 => TabElt(0x60, 0xF0, Dummy, 1)
    case 18 => TabElt(0x44, 0xC6, Dummy, 1)
    case 19 => TabElt(0x86, 0xC7, Dummy, 2)
    case 20 => TabElt(0x84, 0xC6, Dummy, 1)
    case 21 => TabElt(0xE1, 0xFF, Dummy, 1)
    case 22 => TabElt(0xE5, 0xFF, Dummy, 1)
    case 23 => TabElt(0xCB, 0xFF, PrefXdCb, 3)
    case 24 => TabElt(0xE3, 0xFF, Dummy, 1)
    case 25 => TabElt(0xE9, 0xFF, Dummy, 1)
    case 26 => TabElt(0xF9, 0xFF, Dummy, 1)
    case _ => TabElt(0x00, 0x00, Dummy, 1)
  }

  function OpcInd(): (t: seq<TabElt>)
    ensures Terminated(t)
  {
    seq(28, i requires 0 <= i < 28 => IndexRow(i))
  }

  predicate Matches(row: TabElt, op: byte) {
    row.val == op & row.mask
  }

  /** The last row, the sentinel, matches every byte. */
  predicate Terminated(table: seq<TabElt>) {
    |table| > 0 && table[|table| - 1].val == 0 && table[|table| - 1].mask == 0
  }

  predicate FirstMatch(table: seq<TabElt>, op: byte, p: nat) {
    p < |table| && Matches(table[p], op) && forall j :: 0 <= j < p ==> !Matches(table[j], op)
  }

  function First(table: seq<TabElt>, op: byte, i: nat): (p: nat)
    requires Terminated(table) && i < |table|
    ensures p < |table|
    decreases |table| - i
  {
    if Matches(table[i], op) then i else First(table, op, i + 1)
  }

  lemma {:induction false} FirstIsFirstMatch(table: seq<TabElt>, op: byte, i: nat)
    requires Terminated(table) && i < |table|
    requires forall j :: 0 <= j < i ==> !Matches(table[j], op)
    ensures FirstMatch(table, op, First(table, op, i))
    decreases |table| - i
  {
    if !Matches(table[i], op) {
      FirstIsFirstMatch(table, op, i + 1);
    }
  }

  lemma FirstAtMost(table: seq<TabElt>, op: byte, k: nat)
    requires Terminated(table) && k < |table| && Matches(table[k], op)
    ensures First(table, op, 0) <= k
    ensures Matches(table[First(table, op, 0)], op)
  {
    FirstIsFirstMatch(table, op, 0);
  }

  method Scan(table: seq<TabElt>, op: byte) returns (row: TabElt)
    requires Terminated(table)
    ensures row == table[First(table, op, 0)]
  {
    var p := 0;
    while table[p].val != op & table[p].mask
      invariant p < |table|
      invariant First(table, op, 0) == First(table, op, p)
      decreases |table| - p
    {
      p := p + 1;
    }
    row := table[p];
  }

  function Signed(e: byte): int {
    if e < 0x80 then e as int else e as int - 256
  }

  /** The condition field of a conditional jump, cut out by the row's mask. */
  function Condition(op: byte, mask: byte): byte {
    ((op & !mask) >> 3) & 7
  }

  predicate CcHolds(cond: byte, flags: byte) {
    if cond == 0 then flags & 0x40 == 0
    else if cond == 1 then flags & 0x40 != 0
    else if cond == 2 then flags & 0x01 == 0
    else if cond == 3 then flags & 0x01 != 0
    else if cond == 4 then flags & 0x04 == 0
    else if cond == 5 then flags & 0x04 != 0
    else if cond == 6 then flags & 0x80 == 0
    else flags & 0x80 != 0
  }

  predicate ConditionHolds(m: Memory, regs: Registers, pc: word, row: TabElt) {
    CcHolds(Condition(m[pc], row.mask), Low(regs[REGISTERS_AF]))
  }

  /** The pseudo-evaluators that look at no further table. */
  function EvalPlain(m: Memory, regs: Registers, pc: word, row: TabElt): word {
    match row.fp
    case Djnz =>
      if regs[REGISTERS_BC] / 256 == 1 then Wrap(pc + row.len)
      else Wrap(pc + Signed(m[Wrap(pc + 1)]) + 2)
    case Jr => Wrap(pc + Signed(m[Wrap(pc + 1)]) + 2)
    case JrCc => Wrap(pc + (if ConditionHolds(m, regs, pc, row) then Signed(m[Wrap(pc + 1)]) else 0) + 2)
    case JpNn => WordAt(m, Wrap(pc + 1))
    case JpCcNn => if ConditionHolds(m, regs, pc, row) then WordAt(m, Wrap(pc + 1)) else Wrap(pc + row.len)
    case JpHl => regs[REGISTERS_HL]
    case Ret => WordAt(m, regs[REGISTERS_SP])
    case RetCc => if ConditionHolds(m, regs, pc, row) then WordAt(m, regs[REGISTERS_SP]) else Wrap(pc + row.len)
    case Rst => Wrap(8 * Condition(m[pc], row.mask) as int)
    case _ => Wrap(pc + row.len)
  }

  function MainEntry(op: byte): TabElt {
    OpcMain()[First(OpcMain(), op, 0)]
  }

  function EdEntry(op: byte): TabElt {
    OpcEd()[First(OpcEd(), op, 0)]
  }

  function IndexEntry(op: byte): TabElt {
    OpcInd()[First(OpcInd(), op, 0)]
  }

  function PrefIndNext(m: Memory, pc: word): word {
    Wrap(pc + 1 + IndexEntry(m[Wrap(pc + 1)]).len)
  }

  function PrefEdNext(m: Memory, regs: Registers, pc: word): word {
    EvalPlain(m, regs, pc, EdEntry(m[Wrap(pc + 1)]))
  }

  function Eval(m: Memory, regs: Registers, pc: word, row: TabElt): word {
    if row.fp == PrefEd then PrefEdNext(m, regs, pc)
    else if row.fp == PrefInd then PrefIndNext(m, pc)
    else EvalPlain(m, regs, pc, row)
  }

  /** Where `CalculateStep` puts the step breakpoint. */
  function NextPc(m: Memory, regs: Registers): word {
    Eval(m, regs, regs[REGISTERS_PC], MainEntry(m[regs[REGISTERS_PC]]))
  }

  method PrefIndStep(m: Memory, pc: word) returns (next: word)
    ensures next == PrefIndNext(m, pc)
  {
    hide First, OpcInd;
    var row := Scan(OpcInd(), m[Wrap(pc + 1)]);
    next := Wrap(pc + 1 + row.len);
  }

  method PrefEdStep(m: Memory, regs: Registers, pc: word) returns (next: word)
    ensures next == PrefEdNext(m, regs, pc)
  {
    hide First, OpcEd, EvalPlain;
    var row := Scan(OpcEd(), m[Wrap(pc + 1)]);
    next := EvalPlain(m, regs, pc, row);
  }

  method CalculateStep(m: Memory, regs: Registers) returns (next: word)
    ensures next == NextPc(m, regs)
  {
    hide First, OpcMain, EvalPlain;
    var pc := regs[REGISTERS_PC];
    var row := Scan(OpcMain(), m[pc]);
    if row.fp == PrefEd {
      next := PrefEdStep(m, regs, pc);
    } else if row.fp == PrefInd {
      next := PrefIndStep(m, pc);
    } else {
      next := EvalPlain(m, regs, pc, row);
    }
  }
}
