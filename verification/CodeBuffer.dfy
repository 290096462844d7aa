/**
 * The output buffer between the two passes of Export: the first pass writes opcodes and constants and
 * leaves branch distances blank, the second fills the distances in.
 */
module CodeBuffer {
  import opened Bytes
  import opened Opcodes
  import opened InstructionList

  lemma OverwrittenTwice(buf: seq<byte>, at: nat, a: seq<byte>, b: seq<byte>)
    requires at + |a| + |b| <= |buf|
    ensures Overwritten(Overwritten(buf, at, a), at + |a|, b) == Overwritten(buf, at, a + b)
  {
  }

  /** The constant that follows the opcode in the first pass; nothing for branches. */
  function ConstantBytes(x: Instr): (b: seq<byte>)
    requires Shaped(x)
    ensures |b| == if OperandsOf(x.op).Branch? then 0 else OperandSize(x.op)
  {
    match OperandsOf(x.op)
    case NoOperand => []
    case Constant(n) => LittleEndian(x.operand.value, n)
    case SwitchCount => LittleEndian(x.operand.value, 4)
    case Branch(_) => []
  }

  /** What the first pass leaves in the slot of instruction i. */
  ghost predicate Started(buf: seq<byte>, c: Code, i: nat)
    requires i < |c| && AllShaped(c)
  {
    var b := OpcodeBytes(c[i].op) + ConstantBytes(c[i]);
    Offset(c, i) + |b| <= Offset(c, i + 1) <= |buf| && buf[Offset(c, i)..Offset(c, i) + |b|] == b
  }

  /** The slot of instruction i is complete. */
  ghost predicate Done(buf: seq<byte>, r: Code, i: nat)
    requires i < |r| && AllShaped(r)
  {
    Offset(r, i) <= Offset(r, i + 1) <= |buf| && buf[Offset(r, i)..Offset(r, i + 1)] == InstrBytes(r, i)
  }

  lemma OffsetParts(c: Code, i: nat)
    requires i < |c|
    ensures Offset(c, i + 1) == Offset(c, i) + |OpcodeBytes(c[i].op)| + OperandSize(c[i].op)
  {
  }

  lemma {:induction false} OffsetsOrdered(c: Code, i: nat, j: nat)
    requires i <= j <= |c|
    ensures Offset(c, i) <= Offset(c, j)
    decreases j
  {
    if i < j {
      OffsetsOrdered(c, i, j - 1);
      OffsetParts(c, j - 1);
    }
  }

  /** Writing inside one slot leaves the others as they were. */
  lemma OtherSlots(buf: seq<byte>, at: nat, b: seq<byte>, c: Code, r: Code, i: nat, j: nat)
    requires i < |c| == |r| && j < |c| && i != j && AllShaped(c) && AllShaped(r)
    requires Offset(c, i) <= at && at + |b| <= Offset(c, i + 1) <= |buf|
    requires forall k :: 0 <= k <= |c| ==> Offset(c, k) == Offset(r, k)
    ensures Started(buf, c, j) ==> Started(Overwritten(buf, at, b), c, j)
    ensures Done(buf, r, j) ==> Done(Overwritten(buf, at, b), r, j)
  {
    hide Offset, OpcodeBytes, InstrBytes, ConstantBytes, Shaped;
    if j < i {
      OffsetsOrdered(c, j + 1, i);
    } else {
      OffsetsOrdered(c, i + 1, j);
    }
  }

  /** Filling in the distance completes the slot of a branch. */
  lemma BranchDone(buf: seq<byte>, c: Code, r: Code, i: nat, at: nat, b: seq<byte>)
    requires i < |c| == |r| && AllShaped(c) && AllShaped(r) && r[i].op == c[i].op
    requires forall k :: 0 <= k <= |c| ==> Offset(c, k) == Offset(r, k)
    requires OperandsOf(r[i].op).Branch? && Started(buf, c, i)
    requires b == LittleEndian(r[i].operand.target - BranchBase(r, i), OperandsOf(r[i].op).size)
    requires at == Offset(c, i + 1) - |b|
    ensures Offset(c, i) <= at
    ensures Done(Overwritten(buf, at, b), r, i)
  {
    hide Offset, OpcodeBytes, OperandsOf, LittleEndian, BranchBase;
    OffsetParts(c, i);
    var o := OpcodeBytes(r[i].op);
    var w := Overwritten(buf, at, b);
    assert w[Offset(c, i)..Offset(c, i + 1)] == w[Offset(c, i)..at] + w[at..at + |b|];
    assert w[Offset(c, i)..at] == buf[Offset(c, i)..at];
  }

  /** Other instructions are complete after the first pass. */
  lemma ConstantDone(buf: seq<byte>, c: Code, r: Code, i: nat)
    requires i < |c| == |r| && AllShaped(c) && AllShaped(r) && r[i] == c[i]
    requires forall k :: 0 <= k <= |c| ==> Offset(c, k) == Offset(r, k)
    requires !OperandsOf(r[i].op).Branch? && Started(buf, c, i)
    ensures Done(buf, r, i)
  {
    hide Offset, OpcodeBytes, OperandsOf, LittleEndian, BranchBase;
    OffsetParts(c, i);
  }

  /** When every slot is complete the buffer holds the assembled list. */
  lemma {:induction false} AllDone(buf: seq<byte>, r: Code, i: nat)
    requires i <= |r| && AllShaped(r) && forall j :: 0 <= j < i ==> Done(buf, r, j)
    requires Offset(r, i) <= |buf|
    ensures buf[..Offset(r, i)] == Assembled(r, i)
  {
    hide InstrBytes, OpcodeBytes, Shaped;
    if i > 0 {
      assert Done(buf, r, i - 1);
      AllDone(buf, r, i - 1);
      assert buf[..Offset(r, i)] == buf[..Offset(r, i - 1)] + buf[Offset(r, i - 1)..Offset(r, i)];
    }
  }
}
