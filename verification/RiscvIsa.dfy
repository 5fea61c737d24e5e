/** The records exchanged with the policy code (validator/include/policy-glue/riscv_isa.h). */
module RiscvIsa {

  /** A `tag_t`. Tag 0 is BAD_TAG_VALUE, "no tag". */
  type Tag = nat

  const BAD_TAG_VALUE: Tag := 0

  datatype Operands = Operands(pc: Tag, ci: Tag, op1: Tag, op2: Tag, op3: Tag, mem: Tag)

  datatype Results = Results(pc: Tag, rd: Tag, csr: Tag, pcResult: bool, rdResult: bool, csrResult: bool)

  const ZERO_OPERANDS := Operands(0, 0, 0, 0, 0, 0)
  const ZERO_RESULTS := Results(0, 0, 0, false, false, false)

  /** Field numbers OP_PC .. OP_MEM. */
  const OPS_LEN: nat := 6

  /** The `consider` array: which of the six operand fields take part in a comparison. */
  type Mask = m: seq<bool> | |m| == OPS_LEN witness [true, true, true, true, true, true]
}
