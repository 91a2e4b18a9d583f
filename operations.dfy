/**
 * The operation records the scheduler reads. include/Operation.hpp is not
 * part of this model; only the fields the dependence-graph builder reads are
 * kept: the opcode and, for each of the three operands, its virtual register.
 */
module Operations {
  import opened Opcodes

  /** `Operand::VR` value meaning "this operand names no register". */
  const NoRegister: int := -1

  datatype Operand = Operand(vr: int)

  /** An opcode and three operands; for every opcode but STORE, `op3` is the destination. */
  datatype Operation = Operation(opcode: Opcode, op1: Operand, op2: Operand, op3: Operand)

  /** The renamed basic block handed to the scheduler, in program order (include/InternalRepresentation.hpp). */
  datatype InternalRepresentation = InternalRepresentation(
    operations: seq<Operation>,
    maxSR: int,
    maxVR: int,
    maxLive: int)
}
