/** The instruction set of include/chip32.h: the mnemonics and their opcodes. */
module Opcodes {
  import opened Bits
  import opened Machine
  import opened Parser

  /** The opcode of a mnemonic; -1 for another name. */
  function Opcode(name: string): int {
    match name
    case "nop" => 0x00
    case "move" => 0x01
    case "inc" => 0x02
    case "dec" => 0x03
    case "sum" => 0x04
    case "dif" => 0x05
    case "mul" => 0x06
    case "div" => 0x07
    case "mod" => 0x08
    case "or" => 0x09
    case "xor" => 0x0A
    case "and" => 0x0B
    case "not" => 0x0C
    case "shl" => 0x0D
    case "shr" => 0x0E
    case "rol" => 0x0F
    case "ror" => 0x10
    case "bor" => 0x11
    case "band" => 0x12
    case "bnot" => 0x13
    case "jmp" => 0x20
    case "jmpi" => 0x20
    case "ift" => 0x21
    case "iff" => 0x22
    case "call" => 0x23
    case "ret" => 0x24
    case "push" => 0x25
    case "pop" => 0x26
    case "initr" => 0x30
    case "logi" => 0x40
    case "logu" => 0x41
    case "logc" => 0x42
    case "logs" => 0x43
    case "logln" => 0x44
    case "strcpy" => 0x50
    case _ => -1
  }

  /** The assembler has exactly these mnemonics and declare, with these opcodes. */
  lemma MnemonicsHaveOpcodes(name: string)
    ensures match ActionOf(name)
      case None => name != "declare" && Opcode(name) == -1
      case Some(DoDeclare) => name == "declare"
      case Some(DoInitr) => name == "initr" && INITR == Opcode(name)
      case Some(DoJmpi) => name == "jmpi" && JMP == Opcode(name)
      case Some(NoArg(op)) => op == Opcode(name)
      case Some(OneArg(op)) => op == Opcode(name)
      case Some(TwoArg(op)) => op == Opcode(name)
      case Some(DoBranch(op)) => op == Opcode(name)
  {
  }

  predicate Known(op: Byte) {
    op <= 0x13 || 0x20 <= op <= 0x26 || op == 0x30 || 0x40 <= op <= 0x44 || op == 0x50
  }
}
