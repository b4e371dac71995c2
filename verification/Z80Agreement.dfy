/** The stub's decoder agrees with the manual. */
module Z80Agreement {
  import opened Machine
  import opened GdbState
  import opened Z80Decode
  import M = Z80Manual

  function CpuOf(regs: Registers): M.Cpu {
    M.Cpu(regs[REGISTERS_AF], regs[REGISTERS_BC], regs[REGISTERS_HL],
          regs[REGISTERS_SP], regs[REGISTERS_IX], regs[REGISTERS_IY])
  }

  function ByY(y: byte, y0: nat, y1: nat, y2: nat, y3: nat, y4: nat, y5: nat, y6: nat, y7: nat): nat {
    if y == 0 then y0 else if y == 1 then y1 else if y == 2 then y2 else if y == 3 then y3
    else if y == 4 then y4 else if y == 5 then y5 else if y == 6 then y6 else y7
  }

  /** The row of the main table an opcode selects, by its fields. */
  function MainIndex(op: byte): nat {
    var x, y, z := M.X(op), M.Y(op), M.Z(op);
    if x == 0 then
      if z == 0 then ByY(y, 0, 8, 13, 16, 19, 19, 19, 19)
      else if z == 1 then ByY(y, 1, 9, 1, 9, 1, 9, 1, 9)
      else if z == 2 then ByY(y, 2, 10, 14, 17, 20, 22, 24, 26)
      else if z == 3 then ByY(y, 3, 11, 3, 11, 3, 11, 3, 11)
      else if z == 4 then 4
      else if z == 5 then 5
      else if z == 6 then 6
      else ByY(y, 7, 12, 15, 18, 21, 23, 25, 27)
    else if x == 1 then if op == 0x76 then 28 else 29
    else if x == 2 then 30
    else if z == 0 then 31
    else if z == 1 then ByY(y, 32, 39, 32, 43, 32, 47, 32, 51)
    else if z == 2 then 33
    else if z == 3 then ByY(y, 34, 40, 42, 44, 46, 48, 50, 52)
    else if z == 4 then 35
    else if z == 5 then ByY(y, 36, 41, 36, 45, 36, 49, 36, 53)
    else if z == 6 then 37
    else 38
  }

  lemma MainIndexLow(op: byte)
    requires M.X(op) == 0
    ensures MainIndex(op) <= 27 && Matches(MainRow(MainIndex(op)), op)
  {
  }

  lemma MainIndexHigh(op: byte)
    requires M.X(op) == 3
    ensures 30 < MainIndex(op) < 54 && Matches(MainRow(MainIndex(op)), op)
  {
  }

  lemma MainIndexSelects(op: byte)
    ensures MainIndex(op) < 54 && Matches(MainRow(MainIndex(op)), op)
  {
    if M.X(op) == 0 {
      MainIndexLow(op);
    } else if M.X(op) == 3 {
      MainIndexHigh(op);
    }
  }

  /** Rows of the main table overlap only at HALT. */
  lemma MainRowsLow(op: byte, p: nat)
    requires p <= 13 && Matches(MainRow(p), op)
    ensures p == MainIndex(op)
  {
  }

  lemma MainRowsMiddle(op: byte, p: nat)
    requires 13 < p <= 30 && Matches(MainRow(p), op)
    ensures p == MainIndex(op) || (p == 29 && op == 0x76)
  {
  }

  lemma MainRowsHigh(op: byte, p: nat)
    requires 30 < p < 54 && Matches(MainRow(p), op)
    ensures p == MainIndex(op)
  {
  }

  /** The scan of the main table stops at the row the fields name, never at the sentinel. */
  lemma MainScan(op: byte)
    ensures First(OpcMain(), op, 0) == MainIndex(op) < |OpcMain()| - 1
  {
    MainIndexSelects(op);
    FirstAtMost(OpcMain(), op, MainIndex(op));
    var p := First(OpcMain(), op, 0);
    assert Matches(MainRow(p), op);
    if p <= 13 {
      MainRowsLow(op, p);
    } else if p <= 30 {
      MainRowsMiddle(op, p);
    } else {
      MainRowsHigh(op, p);
    }
  }

  /** A row of the ED table that surely matches. */
  function EdBound(op: byte): nat {
    if op & 0xCF == 0x43 then 7 else if op & 0xCF == 0x4B then 13
    else if op == 0x45 then 9 else if op == 0x4D then 14 else 26
  }

  lemma EdBoundMatches(op: byte)
    ensures Matches(OpcEd()[EdBound(op)], op)
  {
    assert Matches(EdRow(EdBound(op)), op);
  }

  /** What a row of the ED table must say of a documented instruction. */
  predicate EdRowAgrees(op: byte, row: TabElt) {
    if M.IsReturnEd(op) then row.fp == Ret
    else row.fp == Dummy && row.len == if M.X(op) == 1 && M.Z(op) == 3 then 4 else 2
  }

  lemma EdRows(op: byte, p: nat)
    requires p <= EdBound(op) && Matches(EdRow(p), op) && M.DocumentedEd(op)
    ensures EdRowAgrees(op, EdRow(p))
  {
  }

  lemma EdScan(op: byte)
    requires M.DocumentedEd(op)
    ensures EdRowAgrees(op, EdEntry(op))
  {
    EdBoundMatches(op);
    FirstAtMost(OpcEd(), op, EdBound(op));
    EdRows(op, First(OpcEd(), op, 0));
  }

  /** A row of the index table that surely matches. */
  function IndexBound(op: byte): nat {
    if op & 0xF7 == 0x26 then 2 else if op == 0x21 then 3 else if op == 0x22 then 4
    else if op == 0x2A then 5 else if op == 0x34 then 10 else if op == 0x35 then 11
    else if op == 0x36 then 12 else if op == 0x76 then 13 else if op & 0xC7 == 0x46 then 14
    else if op & 0xF8 == 0x70 then 15 else if op & 0xC7 == 0x86 then 19
    else if op == 0xCB then 23 else 27
  }

  lemma IndexBoundMatches(op: byte)
    ensures Matches(OpcInd()[IndexBound(op)], op)
  {
    assert Matches(IndexRow(IndexBound(op)), op);
  }

  predicate Indexable(op: byte) {
    op == 0xCB || M.UsesHL(op) || M.UsesMemory(op)
  }

  function IndexLength(op: byte): nat {
    if op == 0xCB then 3 else M.PlainLength(op) + if M.UsesMemory(op) then 1 else 0
  }

  lemma IndexRowsLow(op: byte, p: nat)
    requires p <= IndexBound(op) && p <= 13 && Matches(IndexRow(p), op) && Indexable(op)
    ensures IndexRow(p).len == IndexLength(op)
  {
  }

  lemma IndexRowsMiddle(op: byte, p: nat)
    requires 13 < p <= IndexBound(op) && p <= 19 && Matches(IndexRow(p), op) && Indexable(op)
    ensures IndexRow(p).len == IndexLength(op)
  {
  }

  lemma IndexRowsHigh(op: byte, p: nat)
    requires 19 < p <= IndexBound(op) && Matches(IndexRow(p), op) && Indexable(op)
    ensures IndexRow(p).len == IndexLength(op)
  {
  }

  lemma IndexScan(op: byte)
    requires Indexable(op)
    ensures IndexEntry(op).len == IndexLength(op)
  {
    IndexBoundMatches(op);
    FirstAtMost(OpcInd(), op, IndexBound(op));
    var p := First(OpcInd(), op, 0);
    if p <= 13 {
      IndexRowsLow(op, p);
    } else if p <= 19 {
      IndexRowsMiddle(op, p);
    } else {
      IndexRowsHigh(op, p);
    }
  }

  lemma ConditionAgrees(op: byte, f: byte)
    ensures CcHolds(Condition(op, 0xC7), f) == M.Condition(M.Y(op), f)
    ensures M.X(op) == 0 && M.Y(op) >= 4 ==> CcHolds(Condition(op, 0xE7), f) == M.Condition(M.Y(op) - 4, f)
  {
  }

  lemma DisplacementAgrees(e: byte)
    ensures Signed(e) == M.Displacement(e)
  {
  }

  predicate IsPrefix(op: byte) {
    op == 0xED || M.IsIndexPrefix(op)
  }

  lemma RstAgrees(op: byte)
    requires M.X(op) == 3 && M.Z(op) == 7
    ensures 8 * Condition(op, 0xC7) as int == (op & 0x38) as int
  {
    assert op == 0xC7 || op == 0xCF || op == 0xD7 || op == 0xDF
        || op == 0xE7 || op == 0xEF || op == 0xF7 || op == 0xFF;
  }

  /** The evaluator an opcode calls for, by its fields. */
  function HandlerOf(op: byte): Handler {
    var x, y, z := M.X(op), M.Y(op), M.Z(op);
    if op == 0xED then PrefEd
    else if M.IsIndexPrefix(op) then PrefInd
    else if op == 0xCB then PrefCb
    else if x == 0 && z == 0 && y >= 2 then (if y == 2 then Djnz else if y == 3 then Jr else JrCc)
    else if op == 0xC9 then Ret
    else if op == 0xE9 then JpHl
    else if op == 0xC3 || op == 0xCD then JpNn
    else if x == 3 && z == 0 then RetCc
    else if x == 3 && (z == 2 || z == 4) then JpCcNn
    else if x == 3 && z == 7 then Rst
    else Dummy
  }

  /** What the row of the main table must say of an opcode. */
  predicate MainRowAgrees(op: byte, row: TabElt) {
    && row.fp == HandlerOf(op)
    && (!IsPrefix(op) ==> row.len == M.PlainLength(op))
    && (row.fp == JrCc ==> row.mask == 0xE7)
    && (row.fp == RetCc || row.fp == JpCcNn || row.fp == Rst ==> row.mask == 0xC7)
  }

  lemma MainRowAgreesFirst(op: byte, p: nat)
    requires p == MainIndex(op) < 8 && Matches(MainRow(p), op)
    ensures MainRowAgrees(op, MainRow(p))
  {
  }

  lemma MainRowAgreesLow(op: byte, p: nat)
    requires 8 <= p == MainIndex(op) < 16 && Matches(MainRow(p), op)
    ensures MainRowAgrees(op, MainRow(p))
  {
  }

  lemma MainRowAgreesRelative(op: byte, p: nat)
    requires 16 <= p == MainIndex(op) < 31 && Matches(MainRow(p), op)
    ensures MainRowAgrees(op, MainRow(p))
  {
  }

  lemma MainRowAgreesMiddle(op: byte, p: nat)
    requires 31 <= p == MainIndex(op) < 36 && Matches(MainRow(p), op)
    ensures MainRowAgrees(op, MainRow(p))
  {
    assert M.X(op) == 3;
  }

  lemma MainRowAgreesUpper(op: byte, p: nat)
    requires 36 <= p == MainIndex(op) < 42 && Matches(MainRow(p), op)
    ensures MainRowAgrees(op, MainRow(p))
  {
    assert M.X(op) == 3;
  }

  lemma MainRowAgreesHigh(op: byte, p: nat)
    requires 42 <= p == MainIndex(op) < 48 && Matches(MainRow(p), op)
    ensures MainRowAgrees(op, MainRow(p))
  {
    assert M.X(op) == 3;
  }

  lemma MainRowAgreesLast(op: byte, p: nat)
    requires 48 <= p == MainIndex(op) < 54 && Matches(MainRow(p), op)
    ensures MainRowAgrees(op, MainRow(p))
  {
    assert M.X(op) == 3;
  }

  lemma MainEntryAgrees(op: byte)
    ensures MainRowAgrees(op, MainEntry(op))
  {
    MainScan(op);
    MainIndexSelects(op);
    var p := MainIndex(op);
    if p < 8 {
      MainRowAgreesFirst(op, p);
    } else if p < 16 {
      MainRowAgreesLow(op, p);
    } else if p < 31 {
      MainRowAgreesRelative(op, p);
    } else if p < 36 {
      MainRowAgreesMiddle(op, p);
    } else if p < 42 {
      MainRowAgreesUpper(op, p);
    } else if p < 48 {
      MainRowAgreesHigh(op, p);
    } else {
      MainRowAgreesLast(op, p);
    }
  }

  lemma DjnzAgrees(m: Memory, regs: Registers, pc: word, row: TabElt)
    requires MainRowAgrees(m[pc], row) && row.fp == Djnz
    ensures EvalPlain(m, regs, pc, row) == M.Successor(m, CpuOf(regs), pc)
  {
    DisplacementAgrees(m[Wrap(pc + 1)]);
    if regs[REGISTERS_BC] / 256 == 1 {
      SameValue(High(regs[REGISTERS_BC]), 1);
    }
  }

  lemma RelativeAgrees(m: Memory, regs: Registers, pc: word, row: TabElt)
    requires MainRowAgrees(m[pc], row) && (row.fp == Jr || row.fp == JrCc)
    ensures EvalPlain(m, regs, pc, row) == M.Successor(m, CpuOf(regs), pc)
  {
    DisplacementAgrees(m[Wrap(pc + 1)]);
    ConditionAgrees(m[pc], Low(regs[REGISTERS_AF]));
  }

  lemma ConditionalAgrees(m: Memory, regs: Registers, pc: word, row: TabElt)
    requires MainRowAgrees(m[pc], row) && (row.fp == RetCc || row.fp == JpCcNn)
    ensures EvalPlain(m, regs, pc, row) == M.Successor(m, CpuOf(regs), pc)
  {
    ConditionAgrees(m[pc], Low(regs[REGISTERS_AF]));
  }

  lemma PlainAgrees(m: Memory, regs: Registers, pc: word, row: TabElt)
    requires MainRowAgrees(m[pc], row) && !IsPrefix(m[pc])
    ensures EvalPlain(m, regs, pc, row) == M.Successor(m, CpuOf(regs), pc)
  {
    match row.fp {
      case Djnz => DjnzAgrees(m, regs, pc, row);
      case Jr => RelativeAgrees(m, regs, pc, row);
      case JrCc => RelativeAgrees(m, regs, pc, row);
      case RetCc => ConditionalAgrees(m, regs, pc, row);
      case JpCcNn => ConditionalAgrees(m, regs, pc, row);
      case Rst => RstAgrees(m[pc]);
      case _ =>
    }
  }

  /** The opcode at PC decides which evaluator runs. */
  lemma EvalByPrefix(m: Memory, regs: Registers, pc: word, row: TabElt)
    requires MainRowAgrees(m[pc], row)
    ensures m[pc] == 0xED ==> Eval(m, regs, pc, row) == PrefEdNext(m, regs, pc)
    ensures M.IsIndexPrefix(m[pc]) ==> Eval(m, regs, pc, row) == PrefIndNext(m, pc)
    ensures !IsPrefix(m[pc]) ==> Eval(m, regs, pc, row) == EvalPlain(m, regs, pc, row)
  {
    assert IsPrefix(m[pc]) || (row.fp != PrefEd && row.fp != PrefInd);
  }

  lemma EdRowStep(m: Memory, regs: Registers, pc: word, row: TabElt)
    requires m[pc] == 0xED && M.Documented(m, pc) && EdRowAgrees(m[Wrap(pc + 1)], row)
    ensures EvalPlain(m, regs, pc, row) == M.Successor(m, CpuOf(regs), pc)
  {
  }

  lemma EdAgrees(m: Memory, regs: Registers, pc: word)
    requires m[pc] == 0xED && M.Documented(m, pc)
    ensures PrefEdNext(m, regs, pc) == M.Successor(m, CpuOf(regs), pc)
  {
    EdScan(m[Wrap(pc + 1)]);
    EdRowStep(m, regs, pc, EdEntry(m[Wrap(pc + 1)]));
  }

  lemma IndexAgrees(m: Memory, pc: word)
    requires M.IsIndexPrefix(m[pc]) && M.Documented(m, pc)
    ensures PrefIndNext(m, pc) == Wrap(pc + M.Length(m, pc))
  {
    IndexScan(m[Wrap(pc + 1)]);
    assert M.Length(m, pc) == 1 + IndexLength(m[Wrap(pc + 1)]);
  }

  /** Where JP (IX) or JP (IY) goes. */
  function JumpIndexTarget(m: Memory, regs: Registers, pc: word): word {
    if m[pc] == 0xDD then regs[REGISTERS_IX] else regs[REGISTERS_IY]
  }

  lemma IndexSuccessor(m: Memory, regs: Registers, pc: word)
    requires M.IsIndexPrefix(m[pc])
    ensures M.Successor(m, CpuOf(regs), pc) ==
            if M.IsJumpIndex(m, pc) then JumpIndexTarget(m, regs, pc) else Wrap(pc + M.Length(m, pc))
    ensures M.IsJumpIndex(m, pc) ==> M.Length(m, pc) == 2
  {
  }

  lemma EvalIsArchitectural(m: Memory, regs: Registers, pc: word, row: TabElt)
    requires MainRowAgrees(m[pc], row) && M.Documented(m, pc)
    ensures Eval(m, regs, pc, row) == M.Successor(m, CpuOf(regs), pc)
            <==> (M.IsJumpIndex(m, pc) ==> JumpIndexTarget(m, regs, pc) == Wrap(pc + 2))
  {
    EvalByPrefix(m, regs, pc, row);
    if m[pc] == 0xED {
      EdAgrees(m, regs, pc);
    } else if M.IsIndexPrefix(m[pc]) {
      IndexAgrees(m, pc);
      IndexSuccessor(m, regs, pc);
    } else {
      PlainAgrees(m, regs, pc, row);
    }
  }

  /** The decoder finds the architectural successor of every documented
      instruction, except that it takes JP (IX) and JP (IY) for two-byte
      instructions that fall through: there it is right just when the jump
      happens to go to the next instruction. */
  lemma StepIsArchitectural(m: Memory, regs: Registers, pc: word)
    requires pc == regs[REGISTERS_PC] && M.Documented(m, pc)
    ensures NextPc(m, regs) == M.Successor(m, CpuOf(regs), pc)
            <==> (M.IsJumpIndex(m, pc) ==> JumpIndexTarget(m, regs, pc) == Wrap(pc + 2))
  {
    MainEntryAgrees(m[pc]);
    EvalIsArchitectural(m, regs, pc, MainEntry(m[pc]));
  }

  /** JP (IX) anywhere but to the instruction behind it: the stub expects that
      one, the CPU goes to IX. With DD E9 at 0100h and IX = 0200h, the
      breakpoint is planted at 0102h. */
  lemma JumpIndexIsMissed(m: Memory, regs: Registers, pc: word)
    requires pc == regs[REGISTERS_PC] && M.IsJumpIndex(m, pc)
    ensures NextPc(m, regs) == Wrap(pc + 2)
    ensures M.Successor(m, CpuOf(regs), pc) == JumpIndexTarget(m, regs, pc)
  {
    MainEntryAgrees(m[pc]);
    EvalByPrefix(m, regs, pc, MainEntry(m[pc]));
    IndexAgrees(m, pc);
    IndexSuccessor(m, regs, pc);
  }
}
