/**
 * Method bodies as lists of instructions, and the layout Export gives them. A branch names its target
 * either by position in the list (a symbolic list) or by byte offset (a laid-out list); both kinds of
 * list have the same sizes and offsets.
 */
module InstructionList {
  import opened Bytes
  import opened Opcodes

  datatype Operand = Nothing | Value(value: int) | Target(target: nat)

  datatype Instr = Instr(op: nat, operand: Operand)

  type Code = seq<Instr>

  /** The operand is of the kind the opcode calls for. */
  predicate Shaped(x: Instr) {
    match OperandsOf(x.op)
    case NoOperand => x.operand.Nothing?
    case Constant(n) => x.operand.Value? && InRange(x.operand.value, n)
    case Branch(_) => x.operand.Target?
    case SwitchCount => x.operand.Value? && InRange(x.operand.value, 4)
  }

  predicate AllShaped(c: Code) {
    forall i :: 0 <= i < |c| ==> Shaped(c[i])
  }

  /** Byte offset of position i; position |c| is the sentinel, the end of the code. */
  function Offset(c: Code, i: nat): (n: nat)
    requires i <= |c|
    ensures n <= 10 * i
  {
    if i == 0 then 0 else Offset(c, i - 1) + Size(c[i - 1].op)
  }

  function CodeSize(c: Code): (n: nat) {
    Offset(c, |c|)
  }

  /** Offset from which the entries of the most recent jump table before position i are measured. */
  function SwitchBase(c: Code, i: nat): (b: int)
    requires i <= |c|
  {
    if i == 0 then 0
    else if c[i - 1].op == CEE_SWITCH && c[i - 1].operand.Value? then
      Offset(c, i - 1) + 1 + 4 * (c[i - 1].operand.value + 1)
    else SwitchBase(c, i - 1)
  }

  /** Offset a branch distance at position i is measured from. */
  function BranchBase(c: Code, i: nat): (b: int)
    requires i < |c|
  {
    if c[i].op == CEE_SWITCH_ARG then SwitchBase(c, i) else Offset(c, i + 1)
  }

  // ---- Assembly of a laid-out list ----

  function InstrBytes(r: Code, i: nat): (b: seq<byte>)
    requires i < |r| && Shaped(r[i])
    ensures |b| == Size(r[i].op)
  {
    OpcodeBytes(r[i].op) +
    match OperandsOf(r[i].op)
    case NoOperand => []
    case Constant(n) => LittleEndian(r[i].operand.value, n)
    case SwitchCount => LittleEndian(r[i].operand.value, 4)
    case Branch(n) => LittleEndian(r[i].operand.target - BranchBase(r, i), n)
  }

  /** The bytes of the first i instructions. */
  function Assembled(r: Code, i: nat): (b: seq<byte>)
    requires i <= |r| && AllShaped(r)
    ensures |b| == Offset(r, i)
  {
    if i == 0 then [] else Assembled(r, i - 1) + InstrBytes(r, i - 1)
  }

  function Assemble(r: Code): (b: seq<byte>)
    requires AllShaped(r)
    ensures |b| == CodeSize(r)
  {
    Assembled(r, |r|)
  }

  lemma AssembledStep(r: Code, i: nat)
    requires i < |r| && AllShaped(r)
    ensures Assembled(r, i + 1) == Assembled(r, i) + InstrBytes(r, i)
    ensures |Assembled(r, i)| == Offset(r, i) <= Offset(r, i + 1)
  {
    hide Size, InstrBytes, Shaped;
  }

  lemma {:induction false} AssembledIsPrefix(r: Code, i: nat, j: nat)
    requires i <= j <= |r| && AllShaped(r)
    ensures Offset(r, i) <= Offset(r, j)
    ensures Assembled(r, j)[..Offset(r, i)] == Assembled(r, i)
    decreases j
  {
    hide *;
    if i < j {
      AssembledIsPrefix(r, i, j - 1);
      AssembledStep(r, j - 1);
      assert Assembled(r, j)[..Offset(r, i)] == Assembled(r, j - 1)[..Offset(r, i)];
    }
  }

  /** The bytes between the offsets of i and i + 1 are exactly instruction i's. */
  lemma InstrBytesInPlace(r: Code, i: nat)
    requires i < |r| && AllShaped(r)
    ensures Offset(r, i) <= Offset(r, i + 1) <= CodeSize(r)
    ensures Assemble(r)[Offset(r, i)..Offset(r, i + 1)] == InstrBytes(r, i)
  {
    AssembledIsPrefix(r, i + 1, |r|);
    AssembledIsPrefix(r, i, i + 1);
    var b := Assemble(r);
    assert b[..Offset(r, i + 1)] == Assembled(r, i) + InstrBytes(r, i);
    assert b[Offset(r, i)..Offset(r, i + 1)] == b[..Offset(r, i + 1)][Offset(r, i)..];
  }

  // ---- Symbolic targets ----

  /** Every branch targets a listed instruction or the sentinel. */
  predicate TargetsListed(c: Code) {
    forall i :: 0 <= i < |c| && c[i].operand.Target? ==> c[i].operand.target <= |c|
  }

  predicate Symbolic(c: Code) {
    AllShaped(c) && TargetsListed(c)
  }

  /** The list with every target replaced by the byte offset of the instruction it names. */
  function LaidOut(c: Code): (r: Code)
    requires TargetsListed(c)
    ensures |r| == |c|
  {
    seq(|c|, i requires 0 <= i < |c| =>
      if c[i].operand.Target? then Instr(c[i].op, Target(Offset(c, c[i].operand.target))) else c[i])
  }

  lemma {:induction false} LaidOutKeepsOffsets(c: Code, i: nat)
    requires TargetsListed(c) && i <= |c|
    ensures Offset(LaidOut(c), i) == Offset(c, i)
    ensures SwitchBase(LaidOut(c), i) == SwitchBase(c, i)
  {
    hide Size, LaidOut;
    if i == 0 {
      return;
    } else {
      hide *;
      LaidOutKeepsOffsets(c, i - 1);
      LaidOutAt(c, i - 1);
      LayoutStep(c, i - 1);
      LayoutStep(LaidOut(c), i - 1);
    }
  }

  lemma LayoutStep(c: Code, i: nat)
    requires i < |c|
    ensures Offset(c, i + 1) == Offset(c, i) + Size(c[i].op)
    ensures SwitchBase(c, i + 1) ==
      if c[i].op == CEE_SWITCH && c[i].operand.Value? then Offset(c, i) + 1 + 4 * (c[i].operand.value + 1)
      else SwitchBase(c, i)
  {
    hide Size;
  }

  lemma LaidOutAt(c: Code, i: nat)
    requires TargetsListed(c) && i < |c|
    ensures LaidOut(c)[i].op == c[i].op
    ensures LaidOut(c)[i].operand == c[i].operand || (c[i].operand.Target? && LaidOut(c)[i].operand.Target?)
  {
    hide Offset;
  }

  lemma LaidOutIsShaped(c: Code)
    requires Symbolic(c)
    ensures AllShaped(LaidOut(c))
  {
  }

  /** The code bytes Export emits for a symbolic list once its branch forms are settled. */
  function Encode(c: Code): (b: seq<byte>)
    requires Symbolic(c)
    ensures |b| == CodeSize(c)
  {
    LaidOutKeepsOffsets(c, |c|);
    Assemble(LaidOut(c))
  }

  /** Signed distance the branch at i has to cover. */
  function Distance(c: Code, i: nat): (d: int)
    requires i < |c| && c[i].operand.Target? && c[i].operand.target <= |c|
  {
    Offset(c, c[i].operand.target) - BranchBase(c, i)
  }
}
