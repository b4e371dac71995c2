/** What GDB's commands do to the stub's state. */
module Commands {
  import opened Machine
  import opened GdbState
  import opened Rst8

  datatype Option<+T> = None | Some(value: T)

  datatype Command =
    | Continue
    | Step
    | StepOver(offset: byte)
    | ReadMemory(a: word, n: nat)
    | WriteMemory(a: word, data: seq<byte>)
    | Insert(a: word)
    | Remove(a: word)
    | ReadRegisters
    | SetRegister(i: nat, v: word)
    | SetRegisters(all: Registers)
    | WhyStopped
    | Describe
    | Features
    | Kill
    | Malformed

  /** The lowest entry with the given address, if there is one. */
  function Find(t: Table, a: word, i: nat): (r: Option<Slot>)
    requires i <= MAX_BREAKPOINTS_COUNT
    ensures r.Some? ==> i <= r.value && t[r.value].address == a
                        && forall j :: i <= j < r.value ==> t[j].address != a
    ensures r.None? ==> forall j :: i <= j < MAX_BREAKPOINTS_COUNT ==> t[j].address != a
    decreases MAX_BREAKPOINTS_COUNT - i
  {
    if i == MAX_BREAKPOINTS_COUNT then None
    else if t[i].address == a then Some(i)
    else Find(t, a, i + 1)
  }

  /** `Z`: the first empty entry takes the address. */
  function InsertBreakpoint(t: Table, a: word): Option<Table> {
    match Find(t, 0, 0)
    case Some(i) => Some(t[i := t[i].(address := a)])
    case None => None
  }

  /** `z`: the first entry with the address becomes empty. */
  function RemoveBreakpoint(t: Table, a: word): Option<Table> {
    match Find(t, a, 0)
    case Some(i) => Some(t[i := t[i].(address := 0)])
    case None => None
  }

  function WriteBytes(m: Memory, a: word, data: seq<byte>): Memory
    decreases |data|
  {
    if data == [] then m else WriteBytes(m[a := data[0]], Wrap(a + 1), data[1..])
  }

  /** The state after a command, before the stub resumes the debuggee if it is
      one of the three that do. */
  function Apply(s: Stub, c: Command): Stub {
    match c
    case Step => s.(flags := s.flags.(step := true))
    case StepOver(offset) =>
      s.(flags := s.flags.(step := true, force := true),
         temp := s.temp.(address := Wrap(s.regs[REGISTERS_PC] + offset as int)))
    case WriteMemory(a, data) => s.(mem := WriteBytes(s.mem, a, data))
    case Insert(a) =>
      (match InsertBreakpoint(s.table, a) case Some(t) => s.(table := t) case None => s)
    case Remove(a) =>
      (match RemoveBreakpoint(s.table, a) case Some(t) => s.(table := t) case None => s)
    case SetRegister(i, v) => if i < REGISTERS_COUNT then s.(regs := s.regs[i := v]) else s
    case SetRegisters(all) => s.(regs := all)
    case _ => s
  }

  predicate Resumes(c: Command) {
    c.Continue? || c.Step? || c.StepOver?
  }

  /** The commands of one stop: only the last resumes the debuggee. A `g`
      counts as setting the registers to what it found. */
  predicate Dialogue(cs: seq<Command>, reported: bool) {
    if !reported then cs == []
    else |cs| > 0 && Resumes(cs[|cs| - 1]) && forall i :: 0 <= i < |cs| - 1 ==> !Resumes(cs[i])
  }

  function ApplyAll(s: Stub, cs: seq<Command>): Stub {
    if cs == [] then s else Apply(ApplyAll(s, cs[..|cs| - 1]), cs[|cs| - 1])
  }

  lemma {:induction false} ApplyFirst(s: Stub, cs: seq<Command>)
    requires cs != []
    ensures ApplyAll(s, cs) == ApplyAll(Apply(s, cs[0]), cs[1..])
    decreases |cs|
  {
    var n := |cs| - 1;
    if n > 0 {
      ApplyFirst(s, cs[..n]);
      assert cs[..n][1..] == cs[1..][..n - 1];
    }
  }
}
