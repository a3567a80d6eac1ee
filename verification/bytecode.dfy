/** Morpho instructions, as the optimizer decodes them. */
module Bytecode {

  /** The opcodes that the optimizer's opcode table lists. */
  datatype Op =
    | Nop | Mov
    | Add | Sub | Mul | Div | Pow | Not | Eq | Neq | Lt | Le
    | PushErr | PopErr | B | Bif | Biff
    | Call | Invoke | Return | CloseUp
    | Lct | Lgl | Sgl | Lpr | Spr | Lup | Sup | Lix | Six
    | Closure | Print | Break | Cat | End

  /** A decoded instruction. Morpho packs an opcode and either three byte
      operands A, B, C or an operand A and one wide operand (Bx unsigned,
      sBx signed); the bit layout is not part of this model, so the two
      forms are two constructors. */
  datatype Instr =
    | Abc(op: Op, a: nat, b: nat, c: nat)   // ENCODE(op, a, b, c), ENCODE_DOUBLE, ENCODE_BYTE
    | Long(op: Op, a: nat, x: int)           // ENCODE_LONG: x is Bx, or sBx for branches

  /** ENCODE_BYTE(OP_NOP) */
  const NopInstr: Instr := Abc(Nop, 0, 0, 0)

  /** ENCODE_DOUBLE(OP_MOV, a, b) */
  function MovInstr(a: nat, b: nat): Instr { Abc(Mov, a, b, 0) }

  /** The contiguous opcode range OP_ADD..OP_LE used by the rewrite rules;
      OP_NOT lies inside it (the common-subexpression rule treats NOT as a
      one-operand member of the range). */
  predicate IsArithmeticOrCompare(op: Op) {
    op in {Add, Sub, Mul, Div, Pow, Not, Eq, Neq, Lt, Le}
  }
}
