/**
 * The operand table of the CIL instruction set, as the rewriter builds it from
 * lib/coreclr/src/inc/opcode.def (ECMA-335 Partition III, section 1.2.1). An opcode is its position in
 * that file: 0x00-0xFF are one-byte opcodes, 0x100 + b is the two-byte opcode FE b.
 */
module Opcodes {
  import opened Bytes

  const CEE_BR_S: nat := 0x2B
  const CEE_BLT_UN_S: nat := 0x37
  const CEE_BR: nat := 0x38
  const CEE_BLT_UN: nat := 0x44
  const CEE_SWITCH: nat := 0x45
  const CEE_LEAVE: nat := 0xDD
  const CEE_LEAVE_S: nat := 0xDE
  const CEE_PREFIX7: nat := 0xF8
  const CEE_PREFIX2: nat := 0xFD
  const CEE_PREFIX1: nat := 0xFE
  const CEE_COUNT: nat := 294
  /** Internal pseudo-opcode: one entry of the jump table that follows a switch. */
  const CEE_SWITCH_ARG: nat := 295
  /** Number of entries in the flag table; larger opcodes are rejected by Export. */
  const FLAG_TABLE_SIZE: nat := 296

  /** What follows the opcode bytes: nothing, an n-byte constant, an n-byte branch distance, or a jump-table count. */
  datatype Operands = NoOperand | Constant(size: nat) | Branch(size: nat) | SwitchCount

  /** Opcodes whose operand is a token, string, signature or four-byte constant. */
  predicate HasFourByteConstant(op: nat) {
    || op == 0x20 || op == 0x22 || 0x27 <= op <= 0x29 || 0x6F <= op <= 0x75 || op == 0x79
    || 0x7B <= op <= 0x81 || op == 0x8C || op == 0x8D || op == 0x8F || 0xA3 <= op <= 0xA5
    || op == 0xC2 || op == 0xC6 || op == 0xD0 || op == 0x106 || op == 0x107
    || op == 0x115 || op == 0x116 || op == 0x11C
  }

  function OperandsOf(op: nat): (k: Operands)
    ensures k.Constant? ==> k.size in {1, 2, 4, 8}
    ensures k.Branch? ==> k.size in {1, 4}
    ensures k.SwitchCount? <==> op == CEE_SWITCH
    ensures op == CEE_SWITCH_ARG ==> k == Branch(4)
    ensures k == Branch(1) <==> CEE_BR_S <= op <= CEE_BLT_UN_S || op == CEE_LEAVE_S
    ensures k == Branch(4) <==> CEE_BR <= op <= CEE_BLT_UN || op == CEE_LEAVE || op == CEE_SWITCH_ARG
  {
    if CEE_BR_S <= op <= CEE_BLT_UN_S || op == CEE_LEAVE_S then Branch(1)
    else if CEE_BR <= op <= CEE_BLT_UN || op == CEE_LEAVE || op == CEE_SWITCH_ARG then Branch(4)
    else if op == CEE_SWITCH then SwitchCount
    else if 0x0E <= op <= 0x13 || op == 0x1F || op == 0x112 then Constant(1)
    else if 0x109 <= op <= 0x10E then Constant(2)
    else if op == 0x21 || op == 0x23 then Constant(8)
    else if HasFourByteConstant(op) then Constant(4)
    else NoOperand
  }

  /** The opcode bytes; the internal opcodes from CEE_COUNT on have none. */
  function OpcodeBytes(op: nat): (b: seq<byte>) {
    if op >= CEE_COUNT then []
    else if op >= 0x100 then [CEE_PREFIX1, op % 0x100]
    else [op]
  }

  function OperandSize(op: nat): (n: nat) {
    match OperandsOf(op)
    case NoOperand => 0
    case Constant(n) => n
    case Branch(n) => n
    case SwitchCount => 4
  }

  function Size(op: nat): (n: nat)
    ensures n <= 10
  {
    |OpcodeBytes(op)| + OperandSize(op)
  }

  predicate IsShortBranch(op: nat) {
    OperandsOf(op) == Branch(1)
  }

  /** The long form of a short branch: the same condition, a four-byte distance. */
  function Long(op: nat): (long: nat)
    requires IsShortBranch(op)
    ensures OperandsOf(long) == Branch(4) && long < CEE_COUNT && long != op
    ensures Size(op) == 2 && Size(long) == 5
  {
    if op == CEE_LEAVE_S then CEE_LEAVE else op - CEE_BR_S + CEE_BR
  }
}
