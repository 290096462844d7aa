/**
 * ImportIL: bytes to instructions, first with targets as byte offsets, then with targets resolved
 * through the offset table. Proved inverse to the assembly of InstructionList in both directions.
 */
module Disassembly {
  import opened Bytes
  import opened Opcodes
  import opened InstructionList

  // ---- Parsing to a laid-out list ----

  /** An opcode read at off, and the offset after it; None when ImportIL rejects it. */
  function ReadOpcode(code: seq<byte>, off: nat): (r: Option<(nat, nat)>)
    requires off < |code|
    ensures r.Some? ==> off < r.value.1 <= off + 2 && r.value.0 < CEE_COUNT
  {
    if code[off] == CEE_PREFIX1 && off + 1 >= |code| then None
    else
      var op: nat := if code[off] == CEE_PREFIX1 then 0x100 + code[off + 1] as int else code[off] as int;
      var next := if code[off] == CEE_PREFIX1 then off + 2 else off + 1;
      if CEE_PREFIX7 <= op <= CEE_PREFIX2 || op >= CEE_COUNT then None else Some((op, next))
  }

  /** Reads the operand of op at off as the import switch does; Nothing after the bytes run out is an error. */
  function ReadOperand(code: seq<byte>, op: nat, off: nat): (r: Option<Operand>)
    ensures r.Some? ==> Shaped(Instr(op, r.value)) && off + OperandSize(op) <= |code|
  {
    if off + OperandSize(op) > |code| then None
    else
      match OperandsOf(op)
      case NoOperand => Some(Nothing)
      case Constant(n) => Some(Value(Signed(code[off..off + n])))
      case SwitchCount => Some(Value(Signed(code[off..off + 4])))
      case Branch(n) => Some(Target(Wrap32(off + n + Signed(code[off..off + n]))))
  }

  /**
   * Parses from off, with pending jump-table entries still to read, their distances measured from base.
   * acc holds what was read so far.
   */
  function ParseFrom(code: seq<byte>, off: nat, pending: nat, base: nat, acc: Code): (r: Option<Code>)
    decreases |code| - off
  {
    if pending > 0 then
      if off + 4 > |code| then None
      else
        var target := Wrap32(base + Signed(code[off..off + 4]));
        ParseFrom(code, off + 4, pending - 1, base, acc + [Instr(CEE_SWITCH_ARG, Target(target))])
    else if off >= |code| then Some(acc)
    else
      match ReadOpcode(code, off)
      case None => None
      case Some((op, next)) =>
        match ReadOperand(code, op, next)
        case None => None
        case Some(operand) =>
          var rest := next + OperandSize(op);
          var count := if op == CEE_SWITCH then Unsigned(code[next..rest]) else 0;
          ParseFrom(code, rest, count, Wrap32(rest + 4 * count), acc + [Instr(op, operand)])
  }

  /** One jump-table entry. */
  lemma ParseEntry(code: seq<byte>, off: nat, pending: nat, base: nat, acc: Code)
    requires pending > 0 && off + 4 <= |code|
    ensures ParseFrom(code, off, pending, base, acc) ==
      ParseFrom(code, off + 4, pending - 1, base,
        acc + [Instr(CEE_SWITCH_ARG, Target(Wrap32(base + Signed(code[off..off + 4]))))])
  {
  }

  /** One instruction outside a jump table. */
  lemma ParseInstr(code: seq<byte>, off: nat, base: nat, acc: Code, op: nat, next: nat, operand: Operand)
    requires off < |code| && ReadOpcode(code, off) == Some((op, next))
    requires ReadOperand(code, op, next) == Some(operand)
    ensures
      var rest := next + OperandSize(op);
      var count := if op == CEE_SWITCH then Unsigned(code[next..rest]) else 0;
      ParseFrom(code, off, 0, base, acc) ==
        ParseFrom(code, rest, count, Wrap32(rest + 4 * count), acc + [Instr(op, operand)])
  {
    hide ReadOpcode, ReadOperand, OperandsOf, Unsigned, Signed;
  }

  // ---- Resolving targets ----

  /** Position of the instruction that starts at byte offset o, looking at positions below i. */
  function StartsAt(r: Code, o: nat, i: nat): (p: Option<nat>)
    requires i <= |r|
    ensures p.Some? ==> p.value < i && r[p.value].op != CEE_SWITCH_ARG && Offset(r, p.value) == o
    ensures p.None? ==> forall j :: 0 <= j < i && r[j].op != CEE_SWITCH_ARG ==> Offset(r, j) != o
  {
    if i == 0 then None
    else if r[i - 1].op != CEE_SWITCH_ARG && Offset(r, i - 1) == o then Some(i - 1)
    else
      hide Offset;
      StartsAt(r, o, i - 1)
  }

  /** GetInstrFromOffset: the instruction starting at o, or the sentinel at the end of the code. */
  function Lookup(r: Code, o: nat): (p: Option<nat>)
    ensures p.Some? ==> p.value <= |r| && Offset(r, p.value) == o
  {
    if o == CodeSize(r) then Some(|r|) else StartsAt(r, o, |r|)
  }

  predicate AllTargetsResolve(r: Code) {
    forall i :: 0 <= i < |r| && r[i].operand.Target? ==> Lookup(r, r[i].operand.target).Some?
  }

  function Resolved(r: Code): (c: Code)
    requires AllTargetsResolve(r)
    ensures |c| == |r| && TargetsListed(c)
  {
    seq(|r|, i requires 0 <= i < |r| =>
      if r[i].operand.Target? then Instr(r[i].op, Target(Lookup(r, r[i].operand.target).value)) else r[i])
  }

  /** What ImportIL makes of a method's code bytes. */
  function Decode(code: seq<byte>): (c: Option<Code>)
    ensures c.Some? ==> TargetsListed(c.value)
  {
    match ParseFrom(code, 0, 0, 0, [])
    case None => None
    case Some(r) => if AllTargetsResolve(r) then Some(Resolved(r)) else None
  }

  // ---- Well-formed lists ----

  /** Number of jump-table entries still owed before position i. */
  function Pending(c: Code, i: nat): (n: int)
    requires i <= |c|
  {
    if i == 0 then 0
    else if c[i - 1].op == CEE_SWITCH && c[i - 1].operand.Value? then c[i - 1].operand.value
    else if c[i - 1].op == CEE_SWITCH_ARG then Pending(c, i - 1) - 1
    else 0
  }

  predicate IsRealOpcode(op: nat) {
    op < CEE_COUNT && !(CEE_PREFIX7 <= op <= CEE_PREFIX1)
  }

  /** Every switch is followed by exactly as many table entries as it announces, and entries occur nowhere else. */
  predicate SwitchesComplete(c: Code) {
    && Pending(c, |c|) == 0
    && (forall i :: 0 <= i < |c| ==> Pending(c, i) >= 0)
    && (forall i :: 0 <= i < |c| ==> if Pending(c, i) > 0 then c[i].op == CEE_SWITCH_ARG else IsRealOpcode(c[i].op))
  }

  /** No branch targets a table entry. */
  predicate TargetsAreInstructions(c: Code) {
    forall i :: 0 <= i < |c| && c[i].operand.Target? && c[i].operand.target < |c| ==>
      c[c[i].operand.target].op != CEE_SWITCH_ARG
  }

  predicate WellFormed(c: Code) {
    Symbolic(c) && SwitchesComplete(c) && TargetsAreInstructions(c) && CodeSize(c) < TWO_TO_THE_31
  }

  // ---- Assembly, then parsing ----

  /** Every distance is representable in the form the branch has. */
  predicate DistancesFit(r: Code)
  {
    forall i :: 0 <= i < |r| && r[i].operand.Target? && OperandsOf(r[i].op).Branch? ==>
      && r[i].operand.target < TWO_TO_THE_31
      && InRange(r[i].operand.target - BranchBase(r, i), OperandsOf(r[i].op).size)
  }

  lemma ReadOpcodeOfBytes(code: seq<byte>, off: nat, op: nat)
    requires IsRealOpcode(op)
    requires off + |OpcodeBytes(op)| <= |code| && code[off..off + |OpcodeBytes(op)|] == OpcodeBytes(op)
    ensures off < |code| && ReadOpcode(code, off) == Some((op, off + |OpcodeBytes(op)|))
  {
    var b := code[off..off + |OpcodeBytes(op)|];
    assert code[off] == b[0];
    if op >= 0x100 {
      assert code[off + 1] == b[1];
    }
  }

  lemma ReadTargetOfBytes(code: seq<byte>, off: nat, n: nat, base: int, target: nat)
    requires off + n <= |code| && code[off..off + n] == LittleEndian(target - base, n)
    requires InRange(target - base, n) && target < TWO_TO_THE_31
    ensures Wrap32(base + Signed(code[off..off + n])) == target
  {
    SignedOfLittleEndian(target - base, n);
  }

  lemma ReadOperandOfBytes(code: seq<byte>, r: Code, i: nat, off: nat)
    requires i < |r| && AllShaped(r) && DistancesFit(r) && r[i].op != CEE_SWITCH_ARG
    requires var n := OperandSize(r[i].op); off + n <= |code| && Offset(r, i + 1) == off + n
    requires code[off..off + OperandSize(r[i].op)] == InstrBytes(r, i)[|OpcodeBytes(r[i].op)|..]
    ensures ReadOperand(code, r[i].op, off) == Some(r[i].operand)
  {
    hide OperandsOf, OpcodeBytes, LittleEndian, Signed, Pow256, SwitchBase;
    match OperandsOf(r[i].op)
    case NoOperand =>
    case Constant(n) => SignedOfLittleEndian(r[i].operand.value, n);
    case SwitchCount => SignedOfLittleEndian(r[i].operand.value, 4);
    case Branch(n) => ReadTargetOfBytes(code, off, n, off + n, r[i].operand.target);
  }

  /** While entries are owed, the table ends where its distances are measured from. */
  lemma {:induction false} SwitchBaseEndsTable(r: Code, i: nat)
    requires i <= |r| && AllShaped(r) && Pending(r, i) > 0
    requires forall j :: 0 <= j <= i ==> Pending(r, j) >= 0
    ensures SwitchBase(r, i) == Offset(r, i) + 4 * Pending(r, i)
  {
    hide OperandsOf;
    if r[i - 1].op == CEE_SWITCH_ARG {
      SwitchBaseEndsTable(r, i - 1);
    }
  }

  lemma {:induction false} OwedEntriesFit(r: Code, i: nat)
    requires i <= |r| && SwitchesComplete(r)
    ensures Offset(r, i) + 4 * Pending(r, i) <= CodeSize(r)
    decreases |r| - i
  {
    hide OperandsOf, Offset;
    if i < |r| {
      OwedEntriesFit(r, i + 1);
      OffsetStep(r, i);
    }
  }

  predicate Assemblable(r: Code) {
    AllShaped(r) && SwitchesComplete(r) && DistancesFit(r) && CodeSize(r) < TWO_TO_THE_31
  }

  lemma OwedNonnegative(r: Code, i: nat)
    requires i <= |r| && Assemblable(r)
    ensures Pending(r, i) >= 0
  {
    hide Pending, AllShaped, DistancesFit, IsRealOpcode;
  }

  lemma ParseAtEnd(r: Code, base: nat)
    requires Assemblable(r)
    ensures ParseFrom(Assemble(r), Offset(r, |r|), Pending(r, |r|), base, r) == Some(r)
  {
    hide Assemble, Offset, Pending, AllShaped, DistancesFit;
  }

  /** From the start of instruction i, parsing the assembled bytes recovers the rest of the list. */
  lemma {:induction false} ParseOfAssembled(r: Code, i: nat, base: nat)
    requires i <= |r| && Assemblable(r)
    requires Pending(r, i) > 0 ==> base == SwitchBase(r, i)
    ensures ParseFrom(Assemble(r), Offset(r, i), Pending(r, i), base, r[..i]) == Some(r)
    decreases |r| - i
  {
    hide *;
    OwedNonnegative(r, i);
    if i == |r| {
      assert r[..i] == r;
      ParseAtEnd(r, base);
    } else {
      assert r[..i + 1] == r[..i] + [r[i]];
      if Pending(r, i) > 0 {
        ParseEntryOfAssembled(r, i, base);
        ParseOfAssembled(r, i + 1, base);
      } else {
        var base' := ParseInstrOfAssembled(r, i, base);
        ParseOfAssembled(r, i + 1, base');
      }
    }
  }

  lemma OffsetStep(r: Code, i: nat)
    requires i < |r|
    ensures Offset(r, i + 1) == Offset(r, i) + |OpcodeBytes(r[i].op)| + OperandSize(r[i].op)
    ensures r[i].op == CEE_SWITCH_ARG ==> Offset(r, i + 1) == Offset(r, i) + 4
    ensures r[i].op == CEE_SWITCH ==> Offset(r, i + 1) == Offset(r, i) + 5
  {
  }

  lemma AssemblableMeans(r: Code)
    requires Assemblable(r)
    ensures AllShaped(r) && SwitchesComplete(r) && DistancesFit(r) && CodeSize(r) < TWO_TO_THE_31
  {
  }

  /** An owed entry is a four-byte table entry and leaves one fewer owed. */
  lemma EntryAt(r: Code, i: nat)
    requires i < |r| && Assemblable(r) && Pending(r, i) > 0
    ensures r[i].op == CEE_SWITCH_ARG && r[i].operand.Target? && r[i].operand.target < TWO_TO_THE_31
    ensures InRange(r[i].operand.target - SwitchBase(r, i), 4)
    ensures Offset(r, i + 1) == Offset(r, i) + 4
    ensures Pending(r, i + 1) == Pending(r, i) - 1 && SwitchBase(r, i + 1) == SwitchBase(r, i)
  {
    hide OperandsOf, InRange;
  }

  lemma EntryBytesInPlace(r: Code, i: nat)
    requires i < |r| && AllShaped(r) && r[i].op == CEE_SWITCH_ARG
    ensures Offset(r, i) <= Offset(r, i + 1) == Offset(r, i) + 4 <= |Assemble(r)|
    ensures r[i].operand.Target?
    ensures Assemble(r)[Offset(r, i)..Offset(r, i) + 4] == LittleEndian(r[i].operand.target - SwitchBase(r, i), 4)
  {
    hide Assemble, Assembled, LittleEndian, OperandsOf, SwitchBase;
    InstrBytesInPlace(r, i);
    OffsetStep(r, i);
  }

  lemma ParseEntryOfAssembled(r: Code, i: nat, base: nat)
    requires i < |r| && Assemblable(r)
    requires Pending(r, i) > 0 && base == SwitchBase(r, i)
    ensures Pending(r, i + 1) == Pending(r, i) - 1 && SwitchBase(r, i + 1) == base
    ensures ParseFrom(Assemble(r), Offset(r, i), Pending(r, i), base, r[..i]) ==
      ParseFrom(Assemble(r), Offset(r, i + 1), Pending(r, i + 1), base, r[..i] + [r[i]])
  {
    hide *;
    AssemblableMeans(r);
    EntryAt(r, i);
    EntryBytesInPlace(r, i);
    ReadTargetOfBytes(Assemble(r), Offset(r, i), 4, base, r[i].operand.target);
    ParseEntry(Assemble(r), Offset(r, i), Pending(r, i), base, r[..i]);
  }

  lemma ParseInstrOfAssembled(r: Code, i: nat, base: nat) returns (base': nat)
    requires i < |r| && Assemblable(r) && Pending(r, i) == 0
    ensures Pending(r, i + 1) >= 0
    ensures Pending(r, i + 1) > 0 ==> base' == SwitchBase(r, i + 1)
    ensures ParseFrom(Assemble(r), Offset(r, i), 0, base, r[..i]) ==
      ParseFrom(Assemble(r), Offset(r, i + 1), Pending(r, i + 1), base', r[..i] + [r[i]])
  {
    hide *;
    AssemblableMeans(r);
    var next := ReadInstrOfAssembled(r, i);
    var rest := Offset(r, i + 1);
    var count := SwitchCountOfAssembled(r, i, next);
    ParseInstr(Assemble(r), Offset(r, i), base, r[..i], r[i].op, next, r[i].operand);
    base' := Wrap32(rest + 4 * count);
    if count > 0 {
      Wrap32OfSmall(rest + 4 * count);
    }
  }

  lemma InstrBytesParts(r: Code, i: nat)
    requires i < |r| && AllShaped(r)
    ensures InstrBytes(r, i)[..|OpcodeBytes(r[i].op)|] == OpcodeBytes(r[i].op)
  {
    hide OperandsOf, OpcodeBytes, LittleEndian;
  }

  lemma NotOwed(r: Code, i: nat)
    requires i < |r| && Assemblable(r) && Pending(r, i) == 0
    ensures IsRealOpcode(r[i].op) && r[i].op != CEE_SWITCH_ARG
  {
    hide OperandsOf, Pending;
  }

  lemma ReadInstrOfAssembled(r: Code, i: nat) returns (next: nat)
    requires i < |r| && Assemblable(r) && Pending(r, i) == 0
    ensures AllShaped(r) && next + OperandSize(r[i].op) == Offset(r, i + 1) <= |Assemble(r)|
    ensures Offset(r, i) < |Assemble(r)| && ReadOpcode(Assemble(r), Offset(r, i)) == Some((r[i].op, next))
    ensures ReadOperand(Assemble(r), r[i].op, next) == Some(r[i].operand)
    ensures Assemble(r)[next..Offset(r, i + 1)] == InstrBytes(r, i)[|OpcodeBytes(r[i].op)|..]
  {
    hide *;
    AssemblableMeans(r);
    var code := Assemble(r);
    var op := r[i].op;
    InstrBytesInPlace(r, i);
    OffsetStep(r, i);
    InstrBytesParts(r, i);
    NotOwed(r, i);
    var k := |OpcodeBytes(op)|;
    next := Offset(r, i) + k;
    SplitBytes(code, Offset(r, i), Offset(r, i + 1), k, InstrBytes(r, i));
    ReadOpcodeOfBytes(code, Offset(r, i), op);
    ReadOperandOfBytes(code, r, i, next);
  }

  lemma SplitBytes(code: seq<byte>, lo: nat, hi: nat, k: nat, b: seq<byte>)
    requires lo <= hi <= |code| && code[lo..hi] == b && k <= |b|
    ensures code[lo..lo + k] == b[..k]
    ensures code[lo + k..hi] == b[k..]
  {
    assert code[lo..hi][..k] == code[lo..lo + k];
    assert code[lo..hi][k..] == code[lo + k..hi];
  }

  /** The count read after the opcode of instruction i is the number of entries that follow it. */
  lemma SwitchCountOfAssembled(r: Code, i: nat, next: nat) returns (count: nat)
    requires i < |r| && Assemblable(r) && Pending(r, i) == 0
    requires next <= Offset(r, i + 1) <= |Assemble(r)|
    requires Assemble(r)[next..Offset(r, i + 1)] == InstrBytes(r, i)[|OpcodeBytes(r[i].op)|..]
    ensures count == if r[i].op == CEE_SWITCH then Unsigned(Assemble(r)[next..Offset(r, i + 1)]) else 0
    ensures count == Pending(r, i + 1)
    ensures count > 0 ==> SwitchBase(r, i + 1) == Offset(r, i + 1) + 4 * count < TWO_TO_THE_31
  {
    hide *;
    AssemblableMeans(r);
    NotOwed(r, i);
    OwedNonnegative(r, i + 1);
    if r[i].op == CEE_SWITCH {
      AfterSwitch(r, i);
      OwedEntriesFit(r, i + 1);
      UnsignedCount(r[i].operand.value);
      count := Unsigned(Assemble(r)[next..Offset(r, i + 1)]);
      if Pending(r, i + 1) > 0 {
        NoneNegative(r, i + 1);
        SwitchBaseEndsTable(r, i + 1);
      }
    } else {
      AfterOther(r, i);
      count := 0;
    }
  }

  lemma NoneNegative(r: Code, i: nat)
    requires SwitchesComplete(r) && i <= |r|
    ensures forall j :: 0 <= j <= i ==> Pending(r, j) >= 0
  {
    hide Pending;
  }

  lemma AfterSwitch(r: Code, i: nat)
    requires i < |r| && AllShaped(r) && r[i].op == CEE_SWITCH
    ensures r[i].operand.Value? && Pending(r, i + 1) == r[i].operand.value
    ensures InstrBytes(r, i)[|OpcodeBytes(r[i].op)|..] == LittleEndian(r[i].operand.value, 4)
  {
    hide OperandsOf, LittleEndian, InRange;
  }

  lemma AfterOther(r: Code, i: nat)
    requires i < |r| && r[i].op != CEE_SWITCH && r[i].op != CEE_SWITCH_ARG
    ensures Pending(r, i + 1) == 0
  {
  }

  lemma UnsignedCount(v: int)
    requires 0 <= v < TWO_TO_THE_31
    ensures Unsigned(LittleEndian(v, 4)) == v
  {
    PowersOf256();
    SignedOfLittleEndian(v, 4);
    var k := UnsignedOfLittleEndian(v, 4);
  }
}
