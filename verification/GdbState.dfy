/** Layout of the state shared by the stub's components. */
module GdbState {
  import opened Machine

  // Indices into the register file GDB sees.
  const REGISTERS_SP := 0
  const REGISTERS_PC := 1
  const REGISTERS_HL := 2
  const REGISTERS_DE := 3
  const REGISTERS_BC := 4
  const REGISTERS_AF := 5
  const REGISTERS_IX := 6
  const REGISTERS_IY := 7
  const SLOT_0 := 8
  const SLOT_3 := 11
  const REGISTERS_COUNT := 12

  const MAX_BREAKPOINTS_COUNT := 8

  type Registers = r: seq<word> | |r| == REGISTERS_COUNT witness seq(REGISTERS_COUNT, _ => 0)

  /** An entry with address 0 is empty. */
  datatype Breakpoint = Breakpoint(address: word, original: byte)

  type Table = t: seq<Breakpoint> | |t| == MAX_BREAKPOINTS_COUNT
    witness seq(MAX_BREAKPOINTS_COUNT, _ => Breakpoint(0, 0))
}
