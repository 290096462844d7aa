/**
 * ImportIL and Export are inverse: assembling what was parsed gives the bytes back, resolving a
 * laid-out list gives the symbolic list back, and hence Decode and Encode are mutually inverse between
 * decodable byte strings and well-formed lists whose short branches fit.
 */
module RoundTrip {
  import opened Bytes
  import opened Opcodes
  import opened InstructionList
  import opened Disassembly

  // ---- Prefixes ----

  /** Offsets, jump-table bases and owed entries at i only depend on the instructions before i. */
  lemma {:induction false} PrefixOnly(c: Code, d: Code, i: nat)
    requires c <= d && i <= |c|
    ensures Offset(d, i) == Offset(c, i) && SwitchBase(d, i) == SwitchBase(c, i) && Pending(d, i) == Pending(c, i)
  {
    hide Size;
    if i == 0 {
      return;
    } else {
      hide Offset, SwitchBase;
      LayoutStep(c, i - 1);
      LayoutStep(d, i - 1);
      PrefixOnly(c, d, i - 1);
      assert d[i - 1] == c[i - 1];
    }
  }

  lemma InstrBytesPrefixOnly(c: Code, d: Code, i: nat)
    requires c <= d && i < |c| && AllShaped(d)
    ensures AllShaped(c) && InstrBytes(d, i) == InstrBytes(c, i)
  {
    hide OperandsOf, OpcodeBytes, Offset, SwitchBase;
    assert forall j :: 0 <= j < |c| ==> c[j] == d[j];
    PrefixOnly(c, d, i);
    PrefixOnly(c, d, i + 1);
  }

  lemma {:induction false} AssembledPrefixOnly(c: Code, d: Code, i: nat)
    requires c <= d && i <= |c| && AllShaped(d) && AllShaped(c)
    ensures Assembled(d, i) == Assembled(c, i)
  {
    if i == 0 {
      return;
    } else {
      hide *;
      AssembledStep(c, i - 1);
      AssembledStep(d, i - 1);
      AssembledPrefixOnly(c, d, i - 1);
      InstrBytesPrefixOnly(c, d, i - 1);
    }
  }

  // ---- Parsing, then assembly ----

  /** The target at i is what reading its own encoded distance yields. */
  predicate TargetRead(r: Code, i: nat)
    requires i < |r|
  {
    r[i].operand.Target? && OperandsOf(r[i].op).Branch? ==>
      r[i].operand.target ==
        Wrap32(BranchBase(r, i) +
          Signed(LittleEndian(r[i].operand.target - BranchBase(r, i), OperandsOf(r[i].op).size)))
  }

  /** Position i holds a table entry if and only if one is owed there. */
  predicate EntryIffOwed(r: Code, i: nat)
    requires i < |r|
  {
    Pending(r, i) >= 0 && if Pending(r, i) > 0 then r[i].op == CEE_SWITCH_ARG else IsRealOpcode(r[i].op)
  }

  /** acc is a faithful reading of the first bytes of the code. */
  predicate Reads(code: seq<byte>, acc: Code) {
    && AllShaped(acc)
    && CodeSize(acc) <= |code| && Assemble(acc) == code[..CodeSize(acc)]
    && (forall i :: 0 <= i < |acc| ==> EntryIffOwed(acc, i))
    && (forall i :: 0 <= i < |acc| ==> TargetRead(acc, i))
  }

  lemma EarlierPositionsUnaffected(acc: Code, x: Instr, i: nat)
    requires i < |acc|
    ensures EntryIffOwed(acc + [x], i) <==> EntryIffOwed(acc, i)
    ensures TargetRead(acc + [x], i) <==> TargetRead(acc, i)
  {
    hide OperandsOf, Offset, SwitchBase, Pending, LittleEndian, Signed, Wrap32;
    var d := acc + [x];
    assert d[i] == acc[i];
    PrefixOnly(acc, d, i);
    PrefixOnly(acc, d, i + 1);
  }

  lemma AssembleAppend(acc: Code, x: Instr)
    requires AllShaped(acc) && Shaped(x)
    ensures AllShaped(acc + [x])
    ensures CodeSize(acc + [x]) == CodeSize(acc) + Size(x.op)
    ensures Assemble(acc + [x]) == Assemble(acc) + InstrBytes(acc + [x], |acc|)
  {
    hide Size, InstrBytes, OperandsOf;
    var d := acc + [x];
    assert acc <= d && d[|acc|] == x;
    PrefixOnly(acc, d, |acc|);
    AssembledPrefixOnly(acc, d, |acc|);
  }

  lemma ReadsOneMore(code: seq<byte>, acc: Code, x: Instr)
    requires Reads(code, acc) && Shaped(x)
    requires CodeSize(acc) + Size(x.op) <= |code|
    requires InstrBytes(acc + [x], |acc|) == code[CodeSize(acc)..CodeSize(acc) + Size(x.op)]
    requires EntryIffOwed(acc + [x], |acc|) && TargetRead(acc + [x], |acc|)
    ensures Reads(code, acc + [x])
  {
    hide Size, InstrBytes, OperandsOf, Shaped, CodeSize, Assemble, EntryIffOwed, TargetRead;
    var d := acc + [x];
    AssembleAppend(acc, x);
    forall i | 0 <= i < |d| ensures EntryIffOwed(d, i) && TargetRead(d, i) {
      if i < |acc| {
        EarlierPositionsUnaffected(acc, x, i);
      }
    }
    var m, n := CodeSize(acc), CodeSize(d);
    assert code[..n] == code[..m] + code[m..n];
  }

  /** A target wrapped to 32 bits still encodes to the distance bytes it was read from. */
  lemma WrappedTargetBytes(base: int, b: seq<byte>)
    requires |b| == 1 || |b| == 4
    ensures LittleEndian(Wrap32(base + Signed(b)) - base, |b|) == b
  {
    var d := Signed(b);
    var k := (base + d) / TWO_TO_THE_32;
    assert Wrap32(base + d) - base == d - k * TWO_TO_THE_32;
    PowersOf256();
    LittleEndianOfSigned(b);
    if |b| == 4 {
      LittleEndianCongruent(d, -k, 4);
      assert d + -k * Pow256(4) == d - k * TWO_TO_THE_32;
    } else {
      LittleEndianCongruent(d, -k * 0x100_0000, 1);
      assert d + (-k * 0x100_0000) * Pow256(1) == d - k * TWO_TO_THE_32;
    }
  }

  /** A successful parse finds all the table entries that were owed. */
  lemma {:induction false} OwedEntriesWereRead(code: seq<byte>, off: nat, pending: nat, base: nat, acc: Code)
    requires ParseFrom(code, off, pending, base, acc).Some? && off <= |code|
    ensures off + 4 * pending <= |code|
    decreases pending
  {
    if pending > 0 {
      hide ParseFrom;
      ParseEntryInverse(code, off, pending, base, acc);
      OwedEntriesWereRead(code, off + 4, pending - 1, base,
        acc + [Instr(CEE_SWITCH_ARG, Target(Wrap32(base + Signed(code[off..off + 4]))))]);
    }
  }

  lemma ParseEntryInverse(code: seq<byte>, off: nat, pending: nat, base: nat, acc: Code)
    requires pending > 0 && ParseFrom(code, off, pending, base, acc).Some?
    ensures off + 4 <= |code|
    ensures ParseFrom(code, off, pending, base, acc) ==
      ParseFrom(code, off + 4, pending - 1, base,
        acc + [Instr(CEE_SWITCH_ARG, Target(Wrap32(base + Signed(code[off..off + 4]))))])
  {
    hide Signed, Wrap32, ReadOpcode, ReadOperand;
  }

  lemma ParseInstrInverse(code: seq<byte>, off: nat, base: nat, acc: Code)
      returns (op: nat, next: nat, operand: Operand, rest: nat, count: nat)
    requires off < |code| && ParseFrom(code, off, 0, base, acc).Some?
    ensures ReadOpcode(code, off) == Some((op, next)) && ReadOperand(code, op, next) == Some(operand)
    ensures rest == next + OperandSize(op) <= |code|
    ensures count == if op == CEE_SWITCH then Unsigned(code[next..rest]) else 0
    ensures ParseFrom(code, off, 0, base, acc) ==
      ParseFrom(code, rest, count, Wrap32(rest + 4 * count), acc + [Instr(op, operand)])
  {
    hide Signed, Wrap32, ReadOpcode, ReadOperand, Unsigned;
    op, next := ReadOpcode(code, off).value.0, ReadOpcode(code, off).value.1;
    operand := ReadOperand(code, op, next).value;
    rest := next + OperandSize(op);
    count := if op == CEE_SWITCH then Unsigned(code[next..rest]) else 0;
    ParseInstr(code, off, base, acc, op, next, operand);
  }

  lemma OpcodeBytesRead(code: seq<byte>, off: nat, op: nat, next: nat)
    requires off < |code| && ReadOpcode(code, off) == Some((op, next))
    ensures IsRealOpcode(op) && next == off + |OpcodeBytes(op)| <= |code|
    ensures code[off..next] == OpcodeBytes(op)
  {
  }

  lemma OperandBytesRead(code: seq<byte>, r: Code, i: nat, next: nat)
    requires i < |r| && Shaped(r[i]) && next + OperandSize(r[i].op) <= |code|
    requires Offset(r, i + 1) == next + OperandSize(r[i].op) && r[i].op != CEE_SWITCH_ARG
    requires ReadOperand(code, r[i].op, next) == Some(r[i].operand)
    ensures InstrBytes(r, i) == OpcodeBytes(r[i].op) + code[next..next + OperandSize(r[i].op)]
    ensures TargetRead(r, i)
  {
    hide OpcodeBytes, LittleEndian, Signed, Wrap32, Offset, OperandsOf;
    var b := code[next..next + OperandSize(r[i].op)];
    match OperandsOf(r[i].op)
    case NoOperand =>
    case Constant(n) => LittleEndianOfSigned(b);
    case SwitchCount => LittleEndianOfSigned(b);
    case Branch(n) =>
      WrappedTargetBytes(next + n, b);
  }

  /** Parsing on from a faithful reading keeps it faithful. */
  lemma ReadsNextInstr(code: seq<byte>, base: nat, acc: Code) returns (x: Instr, count: nat, base': nat)
    requires Reads(code, acc) && CodeSize(acc) < |code| < TWO_TO_THE_31 && Pending(acc, |acc|) == 0
    requires ParseFrom(code, CodeSize(acc), 0, base, acc).Some?
    ensures Reads(code, acc + [x]) && Size(x.op) > 0
    ensures ParseFrom(code, CodeSize(acc), 0, base, acc) ==
      ParseFrom(code, CodeSize(acc + [x]), count, base', acc + [x])
    ensures Pending(acc + [x], |acc| + 1) == count
    ensures count > 0 ==> base' == SwitchBase(acc + [x], |acc| + 1)
  {
    hide *;
    var off := CodeSize(acc);
    var op, next, operand, rest, n := ParseInstrInverse(code, off, base, acc);
    x, count, base' := Instr(op, operand), n, Wrap32(rest + 4 * n);
    var d := acc + [x];
    OpcodeBytesRead(code, off, op, next);
    ReadMeansShaped(code, op, next, operand);
    SizeParts(op);
    ReadsMeans(code, acc);
    AssembleAppend(acc, x);
    OffsetsAtEnd(acc, x);
    NotOwedHere(acc, x);
    OperandBytesRead(code, d, |acc|, next);
    assert code[off..rest] == code[off..next] + code[next..rest];
    ReadsOneMore(code, acc, x);
    OwedEntriesWereRead(code, rest, count, base', d);
    SwitchReads(code, acc, x, next, rest, count);
    if count > 0 {
      SmallBase(rest, count, |code|);
    }
  }

  lemma SmallBase(rest: nat, count: nat, size: nat)
    requires rest + 4 * count <= size < TWO_TO_THE_31
    ensures Wrap32(rest + 4 * count) == rest + 4 * count
  {
  }

  lemma ReadsMeans(code: seq<byte>, acc: Code)
    requires Reads(code, acc)
    ensures AllShaped(acc) && CodeSize(acc) <= |code| && Assemble(acc) == code[..CodeSize(acc)]
  {
  }

  lemma ReadMeansShaped(code: seq<byte>, op: nat, off: nat, operand: Operand)
    requires ReadOperand(code, op, off) == Some(operand)
    ensures Shaped(Instr(op, operand))
  {
    hide OperandsOf;
  }

  lemma SizeParts(op: nat)
    ensures Size(op) == |OpcodeBytes(op)| + OperandSize(op)
    ensures op < CEE_COUNT || op == CEE_SWITCH_ARG ==> Size(op) > 0
  {
  }

  lemma OffsetsAtEnd(acc: Code, x: Instr)
    ensures (acc + [x])[|acc|] == x && |acc + [x]| == |acc| + 1
    ensures Offset(acc + [x], |acc|) == CodeSize(acc)
    ensures Offset(acc + [x], |acc| + 1) == CodeSize(acc + [x]) == CodeSize(acc) + Size(x.op)
    ensures Pending(acc + [x], |acc|) == Pending(acc, |acc|)
    ensures SwitchBase(acc + [x], |acc|) == SwitchBase(acc, |acc|)
  {
    hide Size;
    PrefixOnly(acc, acc + [x], |acc|);
  }

  lemma NotOwedHere(acc: Code, x: Instr)
    requires Pending(acc, |acc|) == 0 && IsRealOpcode(x.op)
    ensures EntryIffOwed(acc + [x], |acc|) && x.op != CEE_SWITCH_ARG
  {
    hide Pending;
    OffsetsAtEnd(acc, x);
  }

  /** After an instruction outside a table, what is owed is the count that was read. */
  lemma SwitchReads(code: seq<byte>, acc: Code, x: Instr, next: nat, rest: nat, count: nat)
    requires x.op != CEE_SWITCH_ARG && Shaped(x)
    requires next <= rest <= |code| < TWO_TO_THE_31 && rest + 4 * count <= |code|
    requires CodeSize(acc) + Size(x.op) == rest && rest == next + OperandSize(x.op)
    requires ReadOperand(code, x.op, next) == Some(x.operand)
    requires count == if x.op == CEE_SWITCH then Unsigned(code[next..rest]) else 0
    ensures Pending(acc + [x], |acc| + 1) == count
    ensures count > 0 ==> SwitchBase(acc + [x], |acc| + 1) == rest + 4 * count
  {
    hide Unsigned, Signed, OperandsOf, Offset;
    OffsetsAtEnd(acc, x);
    if x.op == CEE_SWITCH {
      SmallCount(code[next..rest]);
    }
  }

  lemma SmallCount(b: seq<byte>)
    requires |b| == 4 && Unsigned(b) < TWO_TO_THE_31
    ensures Signed(b) == Unsigned(b)
  {
    PowersOf256();
  }

  /** A table entry read in its place extends a faithful reading. */
  lemma ReadsNextEntry(code: seq<byte>, base: nat, acc: Code) returns (x: Instr)
    requires Reads(code, acc) && Pending(acc, |acc|) > 0 && base == SwitchBase(acc, |acc|)
    requires ParseFrom(code, CodeSize(acc), Pending(acc, |acc|), base, acc).Some?
    ensures Reads(code, acc + [x]) && Size(x.op) > 0
    ensures Pending(acc + [x], |acc| + 1) == Pending(acc, |acc|) - 1
    ensures SwitchBase(acc + [x], |acc| + 1) == base
    ensures ParseFrom(code, CodeSize(acc), Pending(acc, |acc|), base, acc) ==
      ParseFrom(code, CodeSize(acc + [x]), Pending(acc, |acc|) - 1, base, acc + [x])
  {
    hide *;
    var off := CodeSize(acc);
    ParseEntryInverse(code, off, Pending(acc, |acc|), base, acc);
    var b := code[off..off + 4];
    x := Instr(CEE_SWITCH_ARG, Target(Wrap32(base + Signed(b))));
    WrappedTargetBytes(base, b);
    EntryFacts(acc, x);
    EntryTargetRead(acc, x, b);
    ReadsOneMore(code, acc, x);
    OffsetsAtEnd(acc, x);
  }

  lemma EntryFacts(acc: Code, x: Instr)
    requires x.op == CEE_SWITCH_ARG && x.operand.Target? && Pending(acc, |acc|) > 0
    ensures Shaped(x) && Size(x.op) == 4 && EntryIffOwed(acc + [x], |acc|)
    ensures Pending(acc + [x], |acc| + 1) == Pending(acc, |acc|) - 1
    ensures SwitchBase(acc + [x], |acc| + 1) == SwitchBase(acc, |acc|)
  {
    OffsetsAtEnd(acc, x);
  }

  lemma EntryBytes(r: Code, i: nat)
    requires i < |r| && Shaped(r[i]) && r[i].op == CEE_SWITCH_ARG
    ensures InstrBytes(r, i) == LittleEndian(r[i].operand.target - BranchBase(r, i), 4)
  {
    hide LittleEndian, OperandsOf, BranchBase;
  }

  lemma EntryTargetRead(acc: Code, x: Instr, b: seq<byte>)
    requires |b| == 4 && x == Instr(CEE_SWITCH_ARG, Target(Wrap32(SwitchBase(acc, |acc|) + Signed(b))))
    requires LittleEndian(Wrap32(SwitchBase(acc, |acc|) + Signed(b)) - SwitchBase(acc, |acc|), 4) == b
    ensures TargetRead(acc + [x], |acc|)
    ensures Shaped(x) && InstrBytes(acc + [x], |acc|) == b
  {
    hide Signed, LittleEndian, Wrap32, SwitchBase, Offset, OperandsOf, InstrBytes, Size, Pending, OpcodeBytes;
    var d := acc + [x];
    OffsetsAtEnd(acc, x);
    assert BranchBase(d, |acc|) == SwitchBase(acc, |acc|);
    EntryBytes(d, |acc|);
  }

  /** A successful parse is a faithful reading of all the code. */
  lemma {:induction false} ParseReadsAll(code: seq<byte>, base: nat, acc: Code) returns (r: Code)
    requires Reads(code, acc) && |code| < TWO_TO_THE_31 && Pending(acc, |acc|) >= 0
    requires Pending(acc, |acc|) > 0 ==> base == SwitchBase(acc, |acc|)
    requires ParseFrom(code, CodeSize(acc), Pending(acc, |acc|), base, acc).Some?
    ensures ParseFrom(code, CodeSize(acc), Pending(acc, |acc|), base, acc) == Some(r)
    ensures Reads(code, r) && CodeSize(r) == |code| && Pending(r, |r|) == 0
    decreases |code| - CodeSize(acc)
  {
    ReadsMeans(code, acc);
    if Pending(acc, |acc|) > 0 {
      hide *;
      var x := ReadsNextEntry(code, base, acc);
      OffsetsAtEnd(acc, x);
      ReadsMeans(code, acc + [x]);
      r := ParseReadsAll(code, base, acc + [x]);
    } else if CodeSize(acc) < |code| {
      hide *;
      var x, count, base' := ReadsNextInstr(code, base, acc);
      OffsetsAtEnd(acc, x);
      ReadsMeans(code, acc + [x]);
      r := ParseReadsAll(code, base', acc + [x]);
    } else {
      r := acc;
    }
  }

  lemma NothingRead(code: seq<byte>)
    ensures Reads(code, [])
  {
  }

  /** Level one: the list parsed from code is complete, and assembles to code again. */
  lemma AssembleOfParse(code: seq<byte>)
    requires |code| < TWO_TO_THE_31 && ParseFrom(code, 0, 0, 0, []).Some?
    ensures
      var r := ParseFrom(code, 0, 0, 0, []).value;
      && AllShaped(r) && Assemble(r) == code && SwitchesComplete(r)
      && (forall i :: 0 <= i < |r| ==> TargetRead(r, i))
  {
    NothingRead(code);
    var r := ParseReadsAll(code, 0, []);
    hide ParseFrom, TargetRead, Pending, Assemble, AllShaped, IsRealOpcode;
    forall i | 0 <= i < |r|
      ensures Pending(r, i) >= 0
      ensures if Pending(r, i) > 0 then r[i].op == CEE_SWITCH_ARG else IsRealOpcode(r[i].op)
    {
      assert EntryIffOwed(r, i);
    }
    assert code[..|code|] == code;
  }
}
