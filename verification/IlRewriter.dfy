/**
 * The rewriter itself: a circular doubly linked list of instruction objects around a sentinel, edited in
 * place by callers, filled by ImportIL and laid out by Export. Every method is specified against the
 * functions on lists of InstructionList, BranchRelaxation, Disassembly and ExceptionRegions.
 */
module IlRewriter {
  import opened Bytes
  import opened Opcodes
  import opened InstructionList
  import opened BranchRelaxation
  import opened Disassembly
  import opened RoundTrip
  import opened ImportExport
  import opened ExceptionRegions
  import opened CodeBuffer

  datatype HResult = Ok | InvalidProgram | InvalidOperation

  /** ILInstr. The union of operands is kept as two fields: the branch target and the constant. */
  class ILInstr {
    var next: ILInstr?
    var prev: ILInstr?
    var op: nat
    var offset: nat
    var target: ILInstr?
    var arg: int

    constructor ()
      ensures next == null && prev == null && target == null
      ensures op == 0 && offset == 0 && arg == 0
    {
      next, prev, target := null, null, null;
      op, offset, arg := 0, 0, 0;
    }
  }

  /** The class token of a typed clause, or the filter's first instruction. */
  datatype SelectorRef = TokenRef(token: int) | FilterRef(first: ILInstr)

  /** EHClause: a clause naming instruction objects; the handler's end is its last instruction. */
  datatype EHClause = EHClause(flags: nat, tryBegin: ILInstr, tryEnd: ILInstr, handlerBegin: ILInstr,
    handlerEnd: ILInstr, selector: SelectorRef)

  ghost predicate Distinct(s: seq<ILInstr>) {
    forall i, j :: 0 <= i < j < |s| ==> s[i] != s[j]
  }

  /** Position of n in s, or |s| when it is not there. */
  ghost function IndexIn(s: seq<ILInstr>, n: ILInstr): (i: nat)
    ensures i <= |s| && (i < |s| ==> s[i] == n)
    ensures n in s <==> i < |s|
  {
    if s == [] then 0 else if s[0] == n then 0 else 1 + IndexIn(s[1..], n)
  }

  /** Everything the clause names is the sentinel or in s. */
  ghost predicate ListedIn(s: seq<ILInstr>, il: ILInstr, e: EHClause) {
    && MemberIn(s, il, e.tryBegin) && MemberIn(s, il, e.tryEnd)
    && MemberIn(s, il, e.handlerBegin) && MemberIn(s, il, e.handlerEnd)
    && (e.selector.FilterRef? <==> HasFilter(e.flags))
    && (e.selector.FilterRef? ==> MemberIn(s, il, e.selector.first))
  }

  ghost predicate MemberIn(s: seq<ILInstr>, il: ILInstr, n: ILInstr) {
    n == il || n in s
  }

  /** The clause with instructions replaced by their positions in s. */
  ghost function ClauseIn(s: seq<ILInstr>, e: EHClause): (x: Clause) {
    Clause(e.flags, IndexIn(s, e.tryBegin), IndexIn(s, e.tryEnd), IndexIn(s, e.handlerBegin), IndexIn(s, e.handlerEnd),
      match e.selector
      case TokenRef(t) => ClassToken(t)
      case FilterRef(n) => Filter(IndexIn(s, n)))
  }

  lemma IndexOfMember(s: seq<ILInstr>, i: nat)
    requires Distinct(s) && i < |s|
    ensures IndexIn(s, s[i]) == i
  {
    var j := IndexIn(s, s[i]);
  }

  /** What the second pass makes of instruction k: widened if it must be, complete otherwise. */
  ghost predicate Resolution(op: nat, buf: seq<byte>, c: Code, k: nat)
    requires k < |c| && Symbolic(c)
  {
    && op == Pass(c)[k].op
    && (!MustWiden(c, k) ==> AllShaped(LaidOut(c)) && Done(buf, LaidOut(c), k))
  }

  /** The first pass has been over all of c. */
  ghost predicate AllStarted(buf: seq<byte>, c: Code)
    requires AllShaped(c)
  {
    forall i :: 0 <= i < |c| ==> Started(buf, c, i)
  }

  /** Every slot holds its final bytes. */
  ghost predicate Complete(buf: seq<byte>, c: Code)
    requires Symbolic(c)
  {
    AllShaped(LaidOut(c)) && forall i :: 0 <= i < |c| ==> Done(buf, LaidOut(c), i)
  }

  ghost predicate InTable(c: Code) {
    forall k :: 0 <= k < |c| ==> c[k].op < FLAG_TABLE_SIZE
  }

  ghost predicate HasBranch(c: Code) {
    exists i :: 0 <= i < |c| && OperandsOf(c[i].op).Branch?
  }

  /** Only bytes in the slot of j changed. */
  ghost predicate SlotWritten(before: seq<byte>, after: seq<byte>, c: Code, j: nat)
    requires j < |c|
  {
    exists at, b :: 0 <= at && at + |b| <= |before| && Offset(c, j) <= at && at + |b| <= Offset(c, j + 1) <= |before|
      && after == Overwritten(before, at, b)
  }

  /** Resolving instruction j leaves the state of instruction k alone. */
  lemma OtherKept(before: seq<byte>, after: seq<byte>, c: Code, j: nat, k: nat, op: nat)
    requires j < |c| && k < |c| && k != j && Symbolic(c)
    requires after == before || SlotWritten(before, after, c, j)
    ensures Resolution(op, before, c, k) ==> Resolution(op, after, c, k)
    ensures Started(before, c, k) ==> Started(after, c, k)
  {
    hide OperandsOf, Offset, Started, Done, Overwritten, Pass, MustWiden;
    LaidOutIsShaped(c);
    forall i | 0 <= i <= |c| ensures Offset(c, i) == Offset(LaidOut(c), i) {
      LaidOutKeepsOffsets(c, i);
    }
    if after != before {
      var at, b :| 0 <= at && at + |b| <= |before| && Offset(c, j) <= at && at + |b| <= Offset(c, j + 1)
        && Offset(c, j + 1) <= |before| && after == Overwritten(before, at, b);
      OtherSlots(before, at, b, c, LaidOut(c), j, k);
    }
  }

  // ---- A list of instruction objects as a value ----

  /** The operand a node of s holds, read as the kind of operand given. */
  ghost function OperandIn(s: seq<ILInstr>, n: ILInstr, kind: Operands): (x: Operand)
    reads n`arg, n`target
    ensures x.Target? ==> x.target <= |s|
  {
    match kind
    case NoOperand => Nothing
    case Constant(k) => Value(Signed(LittleEndian(n.arg, k)))
    case SwitchCount => Value(Signed(LittleEndian(n.arg, 4)))
    case Branch(_) => Target(if n.target == null then 0 else IndexIn(s, n.target))
  }

  ghost function InstrIn(s: seq<ILInstr>, n: ILInstr): (x: Instr)
    reads n`op, n`arg, n`target
    ensures Shaped(x) && x.op == n.op
    ensures x.operand.Target? ==> x.operand.target <= |s|
  {
    hide LittleEndian, Signed;
    Instr(n.op, OperandIn(s, n, OperandsOf(n.op)))
  }

  /** The first k instructions in list order, with targets as positions. */
  ghost function ListingIn(s: seq<ILInstr>, k: nat): (c: Code)
    requires k <= |s|
    reads s`op, s`arg, s`target
    ensures |c| == k && forall i :: 0 <= i < k ==> c[i] == InstrIn(s, s[i])
  {
    if k == 0 then [] else ListingIn(s, k - 1) + [InstrIn(s, s[k - 1])]
  }

  ghost function CodeIn(s: seq<ILInstr>): (c: Code)
    reads s`op, s`arg, s`target
    ensures |c| == |s| && Symbolic(c)
    ensures forall i :: 0 <= i < |c| ==> c[i] == InstrIn(s, s[i])
  {
    hide OperandsOf;
    ListingIn(s, |s|)
  }

  class ILRewriter {
    const il: ILInstr
    ghost var nodes: seq<ILInstr>
    var nInstrs: nat
    var codeSize: nat
    var offsetToInstr: array<ILInstr?>
    var output: array<byte>
    var ehImported: bool
    var eh: seq<EHClause>

    /** The sentinel at both ends, position k of the list in between. */
    ghost function Ring(k: int): (n: ILInstr)
      requires -1 <= k <= |nodes|
      reads this`nodes
    {
      if 0 <= k < |nodes| then nodes[k] else il
    }

    ghost predicate Linked()
      reads this`nodes, il`next, il`prev, nodes`next, nodes`prev
    {
      && il !in nodes && Distinct(nodes)
      && forall k :: -1 <= k < |nodes| ==> Ring(k).next == Ring(k + 1) && Ring(k + 1).prev == Ring(k)
    }

    /** Position of a listed instruction; the sentinel's is the length of the list. */
    ghost function Position(n: ILInstr): (p: nat)
      reads this`nodes
      ensures p <= |nodes|
    {
      IndexIn(nodes, n)
    }

    ghost predicate Listed(n: ILInstr?)
      reads this`nodes
    {
      n != null && (n == il || n in nodes)
    }

    constructor ()
      ensures Linked() && nodes == [] && nInstrs == 0 && !ehImported && fresh(il)
    {
      il := new ILInstr();
      nodes := [];
      nInstrs, codeSize := 0, 0;
      ehImported, eh := false, [];
      offsetToInstr := new ILInstr?[0];
      output := new byte[0];
      new;
      il.next := il;
      il.prev := il;
    }

    /** The node that position k of a list gets when what is spliced in at k. */
    static ghost function Spliced(s: seq<ILInstr>, k: nat, what: ILInstr): (t: seq<ILInstr>)
      requires k <= |s|
      ensures |t| == |s| + 1
    {
      s[..k] + [what] + s[k..]
    }

    method InsertBefore(where: ILInstr, what: ILInstr)
      requires Linked() && Listed(where) && !Listed(what)
      modifies this`nodes, what`next, what`prev, il`next, il`prev, nodes`next, nodes`prev
      ensures Linked()
      ensures nodes == Spliced(old(nodes), old(Position(where)), what)
    {
      ghost var k: int := Position(where);
      ghost var s := nodes;
      assert Ring(k) == where && Ring(k - 1).next == Ring(k) && Ring(k).prev == Ring(k - 1);
      what.next := where;
      what.prev := where.prev;
      what.next.prev := what;
      what.prev.next := what;
      nodes := Spliced(s, k, what);
      forall j | -1 <= j < |nodes|
        ensures Ring(j).next == Ring(j + 1) && Ring(j + 1).prev == Ring(j)
      {
        assert j < k - 1 ==> Ring(j) == old(Ring(j)) && Ring(j + 1) == old(Ring(j + 1));
        assert j > k ==> Ring(j) == old(Ring(j - 1)) && Ring(j + 1) == old(Ring(j));
      }
    }

    method InsertAfter(where: ILInstr, what: ILInstr)
      requires Linked() && Listed(where) && !Listed(what)
      modifies this`nodes, what`next, what`prev, il`next, il`prev, nodes`next, nodes`prev
      ensures Linked()
      ensures nodes == Spliced(old(nodes), old(After(|nodes|, Position(where))), what)
    {
      ghost var k: int := After(|nodes|, Position(where));
      ghost var s := nodes;
      assert Ring(k - 1) == where && Ring(k - 1).next == Ring(k) && Ring(k).prev == Ring(k - 1);
      what.next := where.next;
      what.prev := where;
      what.next.prev := what;
      what.prev.next := what;
      nodes := Spliced(s, k, what);
      forall j | -1 <= j < |nodes|
        ensures Ring(j).next == Ring(j + 1) && Ring(j + 1).prev == Ring(j)
      {
        assert j < k - 1 ==> Ring(j) == old(Ring(j)) && Ring(j + 1) == old(Ring(j + 1));
        assert j > k ==> Ring(j) == old(Ring(j - 1)) && Ring(j + 1) == old(Ring(j));
      }
    }

    // ---- The list as a value ----

    /** The operand a node holds, read as the kind of operand given. */
    ghost function OperandOf(n: ILInstr, kind: Operands): (x: Operand)
      reads this`nodes, n`arg, n`target
      ensures x.Target? ==> x.target <= |nodes|
    {
      OperandIn(nodes, n, kind)
    }

    ghost function InstrOf(n: ILInstr): (x: Instr)
      reads this`nodes, n`op, n`arg, n`target
      ensures Shaped(x) && x.op == n.op
      ensures x.operand.Target? ==> x.operand.target <= |nodes|
    {
      InstrIn(nodes, n)
    }

    ghost function Contents(): (c: Code)
      reads this`nodes, nodes`op, nodes`arg, nodes`target
      ensures |c| == |nodes| && Symbolic(c)
      ensures forall i :: 0 <= i < |c| ==> c[i] == InstrOf(nodes[i])
    {
      CodeIn(nodes)
    }

    /** Every branch points into the list. */
    ghost predicate Targeted()
      reads this`nodes, nodes`op, nodes`target
    {
      forall n :: n in nodes && OperandsOf(n.op).Branch? ==> Listed(n.target)
    }

    ghost predicate ValidOpcodes()
      reads this`nodes, nodes`op
    {
      forall n :: n in nodes ==> n.op < FLAG_TABLE_SIZE
    }

    /** The offset fields hold the layout of c. */
    ghost predicate OffsetsSet(c: Code)
      requires |c| == |nodes|
      reads this`nodes, il`offset, nodes`offset
    {
      forall i :: 0 <= i <= |nodes| ==> Ring(i).offset == Offset(c, i)
    }

    // ---- Export ----

    method EmitOpcode(op: nat, start: nat) returns (offset: nat)
      requires start + 2 <= output.Length
      modifies output
      ensures output[..] == Overwritten(old(output[..]), start, OpcodeBytes(op))
      ensures offset == start + |OpcodeBytes(op)|
    {
      offset := start;
      if op < CEE_COUNT {
        if op >= 0x100 {
          output[offset] := CEE_PREFIX1;
          offset := offset + 1;
        }
        output[offset] := op % 0x100;
        offset := offset + 1;
      }
    }

    /** Writes the operand unless it is a branch distance, and moves past it in either case. */
    method EmitConstant(p: ILInstr, start: nat) returns (offset: nat)
      requires start + 8 <= output.Length
      modifies output
      ensures |ConstantBytes(InstrOf(p))| <= 8
      ensures output[..] == Overwritten(old(output[..]), start, ConstantBytes(InstrOf(p)))
      ensures offset == start + OperandSize(p.op)
    {
      hide LittleEndian, Signed, OperandsOf;
      match OperandsOf(p.op) {
        case NoOperand =>
        case Constant(n) =>
          WriteBytes(output, start, LittleEndian(p.arg, n));
          LittleEndianOfSigned(LittleEndian(p.arg, n));
        case SwitchCount =>
          WriteBytes(output, start, LittleEndian(p.arg, 4));
          LittleEndianOfSigned(LittleEndian(p.arg, 4));
        case Branch(_) =>
      }
      offset := start + OperandSize(p.op);
    }

    /** The first pass over one instruction. */
    method Emit(p: ILInstr, start: nat) returns (offset: nat)
      requires start + 10 <= output.Length
      modifies output
      ensures |OpcodeBytes(p.op) + ConstantBytes(InstrOf(p))| <= 10
      ensures output[..] == Overwritten(old(output[..]), start, OpcodeBytes(p.op) + ConstantBytes(InstrOf(p)))
      ensures offset == start + Size(p.op)
    {
      hide LittleEndian, Signed, OperandsOf, ConstantBytes, Overwritten;
      offset := EmitOpcode(p.op, start);
      offset := EmitConstant(p, offset);
      OverwrittenTwice(old(output[..]), start, OpcodeBytes(p.op), ConstantBytes(InstrOf(p)));
    }

    /** Instruction j has been through the first pass over c. */
    ghost predicate FirstPassed(c: Code, j: nat)
      requires j < |nodes| == |c| && AllShaped(c)
      reads this`nodes, this`output, nodes`offset, nodes`op, output
    {
      nodes[j].offset == Offset(c, j) && nodes[j].op < FLAG_TABLE_SIZE && Started(output[..], c, j)
    }

    method LayOutOne(p: ILInstr, start: nat, ghost c: Code, ghost i: nat) returns (hr: HResult, offset: nat)
      requires Linked() && c == Contents() && i < |nodes| && p == nodes[i] && start == Offset(c, i)
      requires 10 * |nodes| <= output.Length
      requires forall j :: 0 <= j < i ==> FirstPassed(c, j)
      modifies p`offset, output
      ensures hr.Ok? <==> p.op < FLAG_TABLE_SIZE
      ensures hr.Ok? ==> offset == Offset(c, i + 1) && forall j :: 0 <= j <= i ==> FirstPassed(c, j)
    {
      hide Size, OperandsOf, InstrOf, Overwritten, Started, OpcodeBytes, ConstantBytes, Linked;
      RingStep(i);
      assert start <= 10 * i;
      ghost var before := output[..];
      assert forall j :: 0 <= j < i ==> FirstPassed(c, j) ==> Started(before, c, j);
      p.offset := start;
      assert before == output[..];
      offset := Emit(p, start);
      OffsetParts(c, i);
      if p.op >= FLAG_TABLE_SIZE {
        return InvalidProgram, offset;
      }
      EmittedSlot(before, output[..], c, i, p);
      forall j | 0 <= j <= i ensures FirstPassed(c, j) {
        assert j < i ==> nodes[j].offset == old(nodes[j].offset) && old(FirstPassed(c, j));
      }
      return Ok, offset;
    }

    /**
     * The first pass of Export: sets the offsets and writes all but the branch distances. The source's
     * buffer-exhausted return cannot be taken.
     */
    method LayOut(maxSize: nat) returns (hr: HResult, size: nat, fBranch: bool)
      requires Linked() && output.Length == maxSize && 10 * |nodes| <= maxSize
      modifies il`offset, nodes`offset, output
      ensures hr.Ok? <==> ValidOpcodes()
      ensures hr.Ok? ==> OffsetsSet(Contents()) && size == CodeSize(Contents()) <= maxSize
      ensures hr.Ok? ==> AllStarted(output[..], Contents()) && (fBranch <==> HasBranch(Contents()))
    {
      hide Linked, OperandsOf, InstrOf, Started, Size, OffsetsSet, FirstPassed, AllStarted, Shaped, AllShaped,
        ListingIn, Contents;
      var offset := 0;
      hr := Ok;
      fBranch := false;
      ghost var c := Contents();
      ghost var i := 0;
      RingEnds();
      var p := il.next;
      while p != il
        invariant hr == Ok && 0 <= i <= |nodes| && p == Ring(i) && offset == Offset(c, i)
        invariant forall j :: 0 <= j < i ==> FirstPassed(c, j)
        invariant fBranch <==> exists j :: 0 <= j < i && OperandsOf(c[j].op).Branch?
        decreases |nodes| - i
      {
        RingStep(i);
        assert offset < maxSize;
        hr, offset := LayOutOne(p, offset, c, i);
        if hr != Ok {
          assert p in nodes && !ValidOpcodes();
          return hr, offset, fBranch;
        }
        if OperandsOf(p.op).Branch? {
          fBranch := true;
        }
        p := p.next;
        i := i + 1;
      }
      NotInRing(i);
      il.offset := offset;
      size := offset;
      AllFirstPassed(c);
    }

    lemma AllFirstPassed(c: Code)
      requires |c| == |nodes| && AllShaped(c) && il !in nodes && il.offset == CodeSize(c)
      requires forall j :: 0 <= j < |nodes| ==> FirstPassed(c, j)
      ensures ValidOpcodes() && OffsetsSet(c)
      ensures AllStarted(output[..], c)
    {
      hide Started, Offset, Shaped;
      forall n | n in nodes ensures n.op < FLAG_TABLE_SIZE {
        var j :| 0 <= j < |nodes| && nodes[j] == n;
        assert FirstPassed(c, j);
      }
      forall j | 0 <= j < |nodes| ensures nodes[j].offset == Offset(c, j) && Started(output[..], c, j) {
        assert FirstPassed(c, j);
      }
    }

    lemma RingEnds()
      requires Linked()
      ensures il.next == Ring(0) && il !in nodes
    {
      assert Ring(-1).next == Ring(0);
    }

    lemma NotInRing(i: nat)
      requires Linked() && i <= |nodes| && Ring(i) == il
      ensures i == |nodes| && il !in nodes
    {
    }

    lemma RingStep(k: int)
      requires Linked() && -1 <= k < |nodes|
      ensures Ring(k).next == Ring(k + 1) && Ring(k + 1).prev == Ring(k)
      ensures 0 <= k ==> Ring(k) == nodes[k] != il
      ensures forall j :: 0 <= j < |nodes| && j != k && 0 <= k ==> nodes[j] != nodes[k]
    {
    }

    lemma EmittedSlot(before: seq<byte>, after: seq<byte>, c: Code, i: nat, p: ILInstr)
      requires c == Contents() && i < |nodes| && p == nodes[i] && Offset(c, i) + 10 <= |before|
      requires |OpcodeBytes(p.op) + ConstantBytes(InstrOf(p))| <= 10
      requires after == Overwritten(before, Offset(c, i), OpcodeBytes(p.op) + ConstantBytes(InstrOf(p)))
      ensures Started(after, c, i)
      ensures forall j :: 0 <= j < i && Started(before, c, j) ==> Started(after, c, j)
    {
      hide OpcodeBytes, ConstantBytes, Overwritten, OperandsOf, InstrOf;
      OffsetParts(c, i);
      forall j | 0 <= j < i && Started(before, c, j) ensures Started(after, c, j) {
        OtherSlots(before, Offset(c, i), OpcodeBytes(p.op) + ConstantBytes(InstrOf(p)), c, c, i, j);
      }
    }

    /** The operand fields hold the operands of c, and every branch points into the list. */
    ghost predicate OperandsHeld(c: Code)
      requires |c| == |nodes|
      reads this`nodes, nodes`arg, nodes`target
    {
      forall k :: 0 <= k < |nodes| ==> OperandHeld(c, k)
    }

    ghost predicate OperandHeld(c: Code, k: nat)
      requires k < |c| == |nodes|
      reads this`nodes, nodes`arg, nodes`target
    {
      && c[k].operand == OperandOf(nodes[k], OperandsOf(c[k].op))
      && (OperandsOf(c[k].op).Branch? ==> Listed(nodes[k].target))
    }

    /** Instruction k has been through the second pass. */
    ghost predicate SecondPassed(c: Code, k: nat)
      requires k < |nodes| == |c| && Symbolic(c)
      reads this`nodes, this`output, nodes`op, output
    {
      Resolution(nodes[k].op, output[..], c, k)
    }

    /** Instruction k is still as the first pass left it. */
    ghost predicate SecondPending(c: Code, k: nat)
      requires k < |nodes| == |c| && Symbolic(c)
      reads this`nodes, this`output, nodes`op, output
    {
      nodes[k].op == c[k].op && Started(output[..], c, k)
    }

    lemma TargetOffset(c: Code, n: ILInstr)
      requires Linked() && |c| == |nodes| && OffsetsSet(c) && Listed(n)
      ensures n.offset == Offset(c, Position(n))
    {
      assert n == Ring(Position(n));
    }

    /** Writes the distance of the branch at p, or widens it when it is short and out of reach. */
    method ResolveBranch(p: ILInstr, ghost c: Code, ghost j: nat) returns (widened: bool)
      requires Linked() && j < |nodes| == |c| && p == nodes[j] && Symbolic(c) && OffsetsSet(c) && OperandsHeld(c)
      requires SecondPending(c, j) && OperandsOf(p.op).Branch? && p.op != CEE_SWITCH_ARG
      requires CodeSize(c) <= output.Length
      modifies p`op, output
      ensures widened == MustWiden(c, j)
      ensures SecondPassed(c, j)
      ensures widened ==> output[..] == old(output[..])
      ensures !widened ==> p.op == old(p.op)
      ensures !widened ==> SlotWritten(old(output[..]), output[..], c, j)
    {
      hide Linked, OperandsOf, Offset, LittleEndian, Done, Started, OpcodeBytes;
      RingStep(j);
      assert Shaped(c[j]) && OperandHeld(c, j);
      assert p.next == Ring(j + 1) && p.next.offset == Offset(c, j + 1);
      TargetOffset(c, p.target);
      var delta := p.target.offset - p.next.offset;
      assert delta == Distance(c, j);
      var n := OperandsOf(p.op).size;
      if n == 1 && !FitsInt8(delta) {
        p.op := Long(p.op);
        return true;
      }
      ghost var before := output[..];
      LaidOutSlot(c, j);
      OffsetParts(c, j);
      OffsetsOrdered(c, j + 1, |c|);
      WriteBytes(output, p.next.offset - n, LittleEndian(delta, n));
      BranchDone(before, c, LaidOut(c), j, p.next.offset - n, LittleEndian(delta, n));
      return false;
    }

    lemma LaidOutSlot(c: Code, j: nat)
      requires Symbolic(c) && j < |c| && c[j].operand.Target?
      ensures AllShaped(LaidOut(c)) && |LaidOut(c)| == |c| && LaidOut(c)[j].op == c[j].op
      ensures forall k :: 0 <= k <= |c| ==> Offset(c, k) == Offset(LaidOut(c), k)
      ensures LaidOut(c)[j].operand.target - BranchBase(LaidOut(c), j) == Distance(c, j)
    {
      hide Offset, OperandsOf;
      LaidOutIsShaped(c);
      LaidOutSameButTargets(c);
      forall k | 0 <= k <= |c| ensures Offset(c, k) == Offset(LaidOut(c), k) {
        LaidOutKeepsOffsets(c, k);
      }
      BaseSame(c, LaidOut(c), j);
    }

    /** A jump-table entry: its distance is measured from the end of its table. */
    method ResolveEntry(p: ILInstr, switchBase: nat, ghost c: Code, ghost j: nat)
      requires Linked() && j < |nodes| == |c| && p == nodes[j] && Symbolic(c) && OffsetsSet(c) && OperandsHeld(c)
      requires SecondPending(c, j) && p.op == CEE_SWITCH_ARG && switchBase == Wrap32(SwitchBase(c, j))
      requires CodeSize(c) <= output.Length
      modifies output
      ensures SecondPassed(c, j) && !MustWiden(c, j)
      ensures SlotWritten(old(output[..]), output[..], c, j)
    {
      hide Linked, OperandsOf, Offset, LittleEndian, Done, Started, Wrap32;
      RingStep(j);
      assert OperandHeld(c, j);
      assert Shaped(c[j]) && p.offset == Offset(c, j) by { assert Ring(j) == p; }
      TargetOffset(c, p.target);
      ghost var before := output[..];
      LaidOutSlot(c, j);
      OffsetParts(c, j);
      OffsetsOrdered(c, j + 1, |c|);
      WrappedBaseBytes(p.target.offset, SwitchBase(c, j));
      WriteBytes(output, p.offset, LittleEndian(p.target.offset - switchBase, 4));
      BranchDone(before, c, LaidOut(c), j, p.offset, LittleEndian(Distance(c, j), 4));
    }

    lemma WrappedBaseBytes(t: int, base: int)
      ensures LittleEndian(t - Wrap32(base), 4) == LittleEndian(t - base, 4)
    {
      PowersOf256();
      var k := base / TWO_TO_THE_32;
      LittleEndianCongruent(t - base, k, 4);
      assert t - base + k * Pow256(4) == t - Wrap32(base);
    }

    /** An instruction without a target is complete after the first pass. */
    lemma PassedAsIs(c: Code, j: nat)
      requires j < |nodes| == |c| && Symbolic(c) && SecondPending(c, j) && !OperandsOf(c[j].op).Branch?
      ensures SecondPassed(c, j) && !MustWiden(c, j)
    {
      hide OperandsOf, Offset, Started, Done;
      assert Shaped(c[j]);
      LaidOutIsShaped(c);
      forall k | 0 <= k <= |c| ensures Offset(c, k) == Offset(LaidOut(c), k) {
        LaidOutKeepsOffsets(c, k);
      }
      ConstantDone(output[..], c, LaidOut(c), j);
    }

    /** One instruction of the second pass. */
    method ResolveOne(p: ILInstr, base: nat, ghost c: Code, ghost j: nat) returns (widened: bool, switchBase: nat)
      requires Linked() && j < |nodes| == |c| && p == nodes[j] && Symbolic(c) && OffsetsSet(c) && OperandsHeld(c)
      requires CodeSize(c) <= output.Length && base == Wrap32(SwitchBase(c, j))
      requires forall k :: 0 <= k < j ==> SecondPassed(c, k)
      requires forall k :: j <= k < |nodes| ==> SecondPending(c, k)
      modifies p`op, output
      ensures widened == MustWiden(c, j) && switchBase == Wrap32(SwitchBase(c, j + 1))
      ensures forall k :: 0 <= k <= j ==> SecondPassed(c, k)
      ensures forall k :: j < k < |nodes| ==> SecondPending(c, k)
    {
      hide Linked, OperandsOf, Offset, LittleEndian, Done, Started, Wrap32, Pass, MustWiden, SlotWritten, Signed,
        Resolution;
      RingStep(j);
      assert SecondPending(c, j) && Shaped(c[j]) && OperandHeld(c, j) && Ring(j).offset == Offset(c, j);
      switchBase := base;
      widened := false;
      ghost var before := output[..];
      if p.op == CEE_SWITCH {
        switchBase := Wrap32(p.offset + 1 + 4 * (Signed(LittleEndian(p.arg, 4)) + 1));
      } else if p.op == CEE_SWITCH_ARG {
        ResolveEntry(p, base, c, j);
      } else if OperandsOf(p.op).Branch? {
        widened := ResolveBranch(p, c, j);
      }
      if !OperandsOf(c[j].op).Branch? {
        PassedAsIs(c, j);
      }
      forall k | 0 <= k < |nodes| && k != j
        ensures k < j ==> SecondPassed(c, k)
        ensures j < k ==> SecondPending(c, k)
      {
        assert k < j ==> old(SecondPassed(c, k));
        assert j < k ==> old(SecondPending(c, k));
        OtherKept(before, output[..], c, j, k, nodes[k].op);
      }
    }

    /** The second pass of Export: true when a branch was widened and the layout has to be redone. */
    method ResolveBranches() returns (tryAgain: bool)
      requires Linked() && Targeted() && OffsetsSet(Contents()) && CodeSize(Contents()) <= output.Length
      requires AllStarted(output[..], Contents())
      modifies nodes`op, output
      ensures Contents() == Pass(old(Contents()))
      ensures tryAgain <==> !Settled(old(Contents()))
      ensures !tryAgain ==> Complete(output[..], old(Contents()))
    {
      hide Linked, OperandsOf, Offset, Done, Started, Wrap32, SecondPassed, SecondPending, MustWiden, InstrOf, Pass,
        Complete, AllStarted, OffsetsSet, OperandsHeld, Targeted, Contents, CodeSize, Symbolic;
      ghost var c := Contents();
      HeldByContents(c);
      tryAgain := false;
      var switchBase := 0;
      ghost var j := 0;
      RingEnds();
      var p := il.next;
      while p != il
        invariant 0 <= j <= |nodes| && p == Ring(j) && switchBase == Wrap32(SwitchBase(c, j))
        invariant OffsetsSet(c) && OperandsHeld(c)
        invariant forall k :: 0 <= k < j ==> SecondPassed(c, k)
        invariant forall k :: j <= k < |nodes| ==> SecondPending(c, k)
        invariant tryAgain <==> exists k :: 0 <= k < j && MustWiden(c, k)
        decreases |nodes| - j
      {
        RingStep(j);
        var widened;
        widened, switchBase := ResolveOne(p, switchBase, c, j);
        tryAgain := tryAgain || widened;
        p := p.next;
        j := j + 1;
      }
      NotInRing(j);
      AllSecondPassed(c);
    }

    lemma HeldByContents(c: Code)
      requires c == Contents() && Targeted() && AllStarted(output[..], c)
      ensures OperandsHeld(c) && forall k :: 0 <= k < |nodes| ==> SecondPending(c, k)
      ensures 0 == Wrap32(SwitchBase(c, 0))
    {
      hide OperandsOf, Started;
    }

    /** The opcodes after the second pass are those of Pass(c); operands did not change. */
    lemma AllSecondPassed(c: Code)
      requires |c| == |nodes| && Symbolic(c) && OperandsHeld(c)
      requires forall k :: 0 <= k < |nodes| ==> SecondPassed(c, k)
      ensures Contents() == Pass(c)
      ensures Settled(c) ==> Complete(output[..], c)
    {
      hide OperandsOf, Offset, Done, Distance, FitsInt8, LittleEndian, Signed;
      LaidOutIsShaped(c);
      forall k | 0 <= k < |nodes| ensures Contents()[k] == Pass(c)[k] {
        assert SecondPassed(c, k) && OperandHeld(c, k);
      }
      forall k | 0 <= k < |nodes| ensures !MustWiden(c, k) ==> Done(output[..], LaidOut(c), k) {
        assert SecondPassed(c, k);
      }
    }

    /** When every slot is complete the buffer holds the encoding of c. */
    lemma BufferHoldsCode(buf: seq<byte>, c: Code)
      requires Symbolic(c) && CodeSize(c) <= |buf| && Complete(buf, c)
      ensures buf[..CodeSize(c)] == Encode(c)
    {
      hide Offset, Done, Assembled;
      LaidOutKeepsOffsets(c, |c|);
      AllDone(buf, LaidOut(c), |c|);
    }

    /** Without branches the first pass is all there is. */
    lemma NoBranches(buf: seq<byte>, c: Code)
      requires Symbolic(c) && !HasBranch(c) && AllStarted(buf, c)
      ensures Settled(c) && Pass(c) == c && Complete(buf, c)
    {
      hide OperandsOf, Offset, Started, Done;
      LaidOutIsShaped(c);
      forall i | 0 <= i <= |c| ensures Offset(c, i) == Offset(LaidOut(c), i) {
        LaidOutKeepsOffsets(c, i);
      }
      forall k | 0 <= k < |c| ensures Done(buf, LaidOut(c), k) && LaidOut(c)[k] == c[k] {
        assert Shaped(c[k]) && Started(buf, c, k);
        ConstantDone(buf, c, LaidOut(c), k);
      }
    }

    /** One round of the retry loop. */
    method Attempt(maxSize: nat) returns (hr: HResult, size: nat, again: bool)
      requires Linked() && Targeted() && output.Length == maxSize && 10 * |nodes| <= maxSize
      modifies output, il`offset, nodes`offset, nodes`op
      ensures hr.Ok? <==> old(ValidOpcodes())
      ensures hr.Ok? ==> Contents() == Pass(old(Contents())) && (again <==> !Settled(old(Contents())))
      ensures hr.Ok? ==> Linked() && Targeted() && ValidOpcodes()
      ensures hr.Ok? && !again ==> OffsetsSet(Contents()) && size == CodeSize(Contents()) <= maxSize
      ensures hr.Ok? && !again ==> output[..size] == Encode(Contents())
    {
      hide Linked, Targeted, OperandsOf, Offset, Done, Started, MustWiden, InstrOf, OffsetsSet, Encode, LaidOut, Pass,
        Settled, ValidOpcodes, OperandsHeld, ShortBranches, AllStarted, Complete, HasBranch, InTable, Symbolic,
        AllShaped, TargetsListed, Shaped, Widens, Contents, ListingIn, CodeSize;
      ghost var c := Contents();
      OperandsHeldByContents();
      var fBranch;
      again := false;
      hr, size, fBranch := LayOut(maxSize);
      if hr != Ok {
        return;
      }
      ValidContents();
      if fBranch {
        again := ResolveBranches();
      } else {
        NoBranches(output[..], c);
      }
      PassWidens(c);
      PassKeepsTargeted(c);
      if !again {
        BufferHoldsCode(output[..], c);
      }
    }

    /** Long forms branch where the short ones did. */
    lemma PassKeepsTargeted(c: Code)
      requires |c| == |nodes| && Symbolic(c) && OperandsHeld(c) && Contents() == Pass(c)
      requires InTable(c)
      ensures Targeted() && ValidOpcodes()
    {
      hide OperandsOf, Distance, FitsInt8, OperandIn;
      forall n | n in nodes ensures n.op < FLAG_TABLE_SIZE && (OperandsOf(n.op).Branch? ==> Listed(n.target)) {
        var k :| 0 <= k < |nodes| && nodes[k] == n;
        assert OperandHeld(c, k) && Contents()[k] == InstrOf(n);
      }
    }

    lemma ValidContents()
      requires ValidOpcodes()
      ensures InTable(Contents())
    {
      hide OperandsOf, OperandIn;
    }

    lemma OperandsHeldByContents()
      requires Targeted()
      ensures OperandsHeld(Contents())
    {
      hide OperandsOf, OperandIn;
    }

    /**
     * The code part of Export: lay out, resolve, and start again while branches are being widened. The
     * 32-bit size computation of the source is assumed not to wrap.
     */
    method Export() returns (hr: HResult, size: nat)
      requires Linked() && Targeted() && |nodes| <= nInstrs && 10 * nInstrs < TWO_TO_THE_31
      modifies this`output, il`offset, nodes`offset, nodes`op
      ensures hr.Ok? <==> old(ValidOpcodes())
      ensures hr.Ok? ==> Linked() && Targeted() && Contents() == Relax(old(Contents()))
      ensures hr.Ok? ==> OffsetsSet(Contents()) && size == CodeSize(Contents()) <= output.Length
      ensures hr.Ok? ==> output[..size] == Encode(Contents())
    {
      hide Linked, Targeted, OperandsOf, Offset, MustWiden, InstrOf, Pass, Settled, LaidOut, OffsetsSet, Encode,
        ValidOpcodes, Contents, CodeSize;
      var maxSize := 10 * nInstrs;
      output := new byte[maxSize];
      var again := true;
      hr, size := Ok, 0;
      ghost var c0 := Contents();
      while again
        invariant Linked() && Targeted() && fresh(output) && output.Length == maxSize
        invariant Relax(Contents()) == Relax(c0)
        invariant hr == Ok && (ValidOpcodes() <==> old(ValidOpcodes()))
        invariant !again ==> ValidOpcodes() && Relax(Contents()) == Contents()
        invariant !again ==> OffsetsSet(Contents()) && size == CodeSize(Contents()) <= maxSize
        invariant !again ==> output[..size] == Encode(Contents())
        decreases if again then 1 + ShortBranches(Contents()) else 0
      {
        ghost var c := Contents();
        hr, size, again := Attempt(maxSize);
        if hr != Ok {
          return;
        }
        PassWidens(c);
        RelaxStep(c);
        WideningLowersShortBranches(c, Contents());
      }
    }

    lemma RelaxStep(c: Code)
      requires Symbolic(c)
      ensures Symbolic(Pass(c)) && Relax(Pass(c)) == Relax(c)
      ensures Settled(c) ==> Relax(c) == c
    {
      PassWidens(c);
    }

    // ---- Import ----

    method NewILInstr() returns (n: ILInstr)
      modifies this`nInstrs
      ensures fresh(n) && nInstrs == old(nInstrs) + 1
    {
      nInstrs := nInstrs + 1;
      n := new ILInstr();
    }

    /** A freshly read node: constants in arg, targets still as byte offsets in arg. */
    ghost predicate RawHeld(n: ILInstr, x: Instr)
      reads n`op, n`arg
    {
      && n.op == x.op && Shaped(x)
      && match x.operand
        case Nothing => true
        case Value(v) => n.arg == v
        case Target(t) => n.arg == t
    }

    ghost predicate RawHeldAll(acc: Code)
      reads this`nodes, nodes`op, nodes`arg
    {
      |acc| == |nodes| && forall i :: 0 <= i < |acc| ==> RawHeld(nodes[i], acc[i])
    }

    ghost predicate TableOf(acc: Code)
      requires |acc| == |nodes|
      reads this`nodes, this`offsetToInstr, this`codeSize, offsetToInstr
    {
      IsTable(offsetToInstr[..], nodes, il, acc, codeSize)
    }

    method AppendNode(op: nat, operand: Operand, ghost acc: Code) returns (n: ILInstr)
      requires Linked() && RawHeldAll(acc) && Shaped(Instr(op, operand))
      modifies this`nodes, this`nInstrs, il`next, il`prev, nodes`next, nodes`prev
      ensures Linked() && fresh(n) && nodes == old(nodes) + [n] && nInstrs == old(nInstrs) + 1
      ensures RawHeldAll(acc + [Instr(op, operand)])
    {
      hide OperandsOf, Linked, Shaped;
      NotInRing(|nodes|);
      n := NewILInstr();
      n.op := op;
      InsertBefore(il, n);
      match operand {
        case Nothing =>
        case Value(v) => n.arg := v;
        case Target(t) => n.arg := t;
      }
      assert nodes == old(nodes) + [n];
    }

    /** Appends a new instruction; a table entry has no offset of its own. */
    method Append(op: nat, operand: Operand, start: nat, ghost acc: Code)
      requires Linked() && RawHeldAll(acc) && Shaped(Instr(op, operand)) && start == CodeSize(acc)
      requires start < codeSize && TableOf(acc)
      modifies this`nodes, this`nInstrs, il`next, il`prev, nodes`next, nodes`prev, offsetToInstr
      ensures Linked()
      ensures |nodes| == |old(nodes)| + 1 && nodes[..|old(nodes)|] == old(nodes) && fresh(nodes[|old(nodes)|])
      ensures nInstrs == old(nInstrs) + 1
      ensures RawHeldAll(acc + [Instr(op, operand)]) && TableOf(acc + [Instr(op, operand)])
    {
      hide OperandsOf, Linked, Shaped, Offset;
      var n := AppendNode(op, operand, acc);
      ghost var before := offsetToInstr[..];
      if op != CEE_SWITCH_ARG {
        offsetToInstr[start] := n;
      }
      TableExtended(before, offsetToInstr[..], old(nodes), il, n, acc, Instr(op, operand), codeSize);
    }

    /** Everything read so far, up to offset, is in the list and in the offset table. */
    ghost predicate Importing(code: seq<byte>, offset: nat, acc: Code)
      reads this, il`next, il`prev, nodes, offsetToInstr
    {
      && Linked() && RawHeldAll(acc) && codeSize == |code| && offset == CodeSize(acc) <= |code|
      && IsTable(offsetToInstr[..], nodes, il, acc, |code|)
    }

    /** The jump table of a switch; false when the code ends before it does. */
    method ReadEntries(code: seq<byte>, start: nat, count: nat, base: nat, ghost acc: Code)
        returns (ok: bool, offset: nat, ghost acc': Code)
      requires Importing(code, start, acc) && start <= |code|
      modifies this`nodes, this`nInstrs, il`next, il`prev, nodes`next, nodes`prev, offsetToInstr
      ensures !ok ==> ParseFrom(code, start, count, base, acc) == None
      ensures ok ==> Importing(code, offset, acc') && start <= offset <= |code|
      ensures ok ==> ParseFrom(code, start, count, base, acc) == ParseFrom(code, offset, 0, base, acc')
      ensures forall i :: 0 <= i < |nodes| ==> nodes[i] in old(nodes) || fresh(nodes[i])
      ensures nInstrs - |nodes| == old(nInstrs - |nodes|)
    {
      hide *;
      offset, acc' := start, acc;
      var iTarget := 0;
      while iTarget < count
        invariant 0 <= iTarget <= count && start <= offset <= |code|
        invariant Importing(code, offset, acc')
        invariant ParseFrom(code, start, count, base, acc) == ParseFrom(code, offset, count - iTarget, base, acc')
        invariant forall i :: 0 <= i < |nodes| ==> nodes[i] in old(nodes) || fresh(nodes[i])
        invariant nInstrs - |nodes| == old(nInstrs - |nodes|)
      {
        if offset + 4 > |code| {
          ShortTable(code, offset, count - iTarget, base, acc');
          return false, offset, acc';
        }
        var target := Wrap32(base + Signed(code[offset..offset + 4]));
        ParseEntry(code, offset, count - iTarget, base, acc');
        ImportEntry(code, offset, target, acc');
        acc' := acc' + [Instr(CEE_SWITCH_ARG, Target(target))];
        offset := offset + 4;
        iTarget := iTarget + 1;
      }
      ok := true;
    }

    lemma ShortTable(code: seq<byte>, offset: nat, pending: nat, base: nat, acc: Code)
      requires pending > 0 && offset + 4 > |code|
      ensures ParseFrom(code, offset, pending, base, acc) == None
    {
    }

    method ImportEntry(code: seq<byte>, offset: nat, target: nat, ghost acc: Code)
      requires Importing(code, offset, acc) && offset + 4 <= |code|
      modifies this`nodes, this`nInstrs, il`next, il`prev, nodes`next, nodes`prev, offsetToInstr
      ensures Importing(code, offset + 4, acc + [Instr(CEE_SWITCH_ARG, Target(target))])
      ensures forall i :: 0 <= i < |nodes| ==> nodes[i] in old(nodes) || fresh(nodes[i])
      ensures nInstrs - |nodes| == old(nInstrs - |nodes|)
    {
      hide Linked, RawHeldAll, Offset, IsTable, Size;
      EntrySize(acc, Instr(CEE_SWITCH_ARG, Target(target)));
      Append(CEE_SWITCH_ARG, Target(target), offset, acc);
    }

    /** Reads all the code into the list, targets still as offsets. */
    method ReadInstructions(code: seq<byte>) returns (ok: bool, ghost acc: Code)
      requires Importing(code, 0, [])
      modifies this`nodes, this`nInstrs, il`next, il`prev, nodes`next, nodes`prev, offsetToInstr
      ensures ok <==> ParseFrom(code, 0, 0, 0, []).Some?
      ensures ok ==> Importing(code, |code|, acc) && ParseFrom(code, 0, 0, 0, []) == Some(acc)
      ensures forall i :: 0 <= i < |nodes| ==> nodes[i] in old(nodes) || fresh(nodes[i])
      ensures nInstrs - |nodes| == old(nInstrs - |nodes|)
    {
      hide *;
      acc := [];
      var offset := 0;
      ghost var base := 0;
      while offset < |code|
        invariant Importing(code, offset, acc) && offset <= |code|
        invariant ParseFrom(code, 0, 0, 0, []) == ParseFrom(code, offset, 0, base, acc)
        invariant forall i :: 0 <= i < |nodes| ==> nodes[i] in old(nodes) || fresh(nodes[i])
        invariant nInstrs - |nodes| == old(nInstrs - |nodes|)
        decreases |code| - offset
      {
        var opcode := ReadOpcode(code, offset);
        if opcode.None? {
          ParseStops(code, offset, base, acc);
          return false, acc;
        }
        var op, next := opcode.value.0, opcode.value.1;
        var operand := ReadOperand(code, op, next);
        if operand.None? {
          ParseStops(code, offset, base, acc);
          return false, acc;
        }
        ParseInstr(code, offset, base, acc, op, next, operand.value);
        ReadSizes(code, offset, op, next, operand.value);
        ImportInstr(code, offset, op, operand.value, acc);
        acc := acc + [Instr(op, operand.value)];
        offset := next + OperandSize(op);
        var count := if op == CEE_SWITCH then Unsigned(code[next..offset]) else 0;
        var tableBase := Wrap32(offset + 4 * count);
        ghost var acc';
        ok, offset, acc' := ReadEntries(code, offset, count, tableBase, acc);
        if !ok {
          return false, acc;
        }
        base, acc := tableBase, acc';
      }
      ok := true;
      ParseEnds(code, offset, base, acc);
    }

    lemma ParseStops(code: seq<byte>, offset: nat, base: nat, acc: Code)
      requires offset < |code|
      ensures ReadOpcode(code, offset).None? ==> ParseFrom(code, offset, 0, base, acc) == None
      ensures
        var r := ReadOpcode(code, offset);
        r.Some? && ReadOperand(code, r.value.0, r.value.1).None? ==> ParseFrom(code, offset, 0, base, acc) == None
    {
      hide ReadOpcode, ReadOperand, OperandsOf;
    }

    lemma ParseEnds(code: seq<byte>, offset: nat, base: nat, acc: Code)
      requires offset >= |code|
      ensures ParseFrom(code, offset, 0, base, acc) == Some(acc)
    {
    }

    lemma ReadSizes(code: seq<byte>, offset: nat, op: nat, next: nat, operand: Operand)
      requires offset < |code| && ReadOpcode(code, offset) == Some((op, next))
      requires ReadOperand(code, op, next) == Some(operand)
      ensures Shaped(Instr(op, operand)) && 0 < Size(op) && offset + Size(op) == next + OperandSize(op) <= |code|
    {
      hide ReadOpcode, ReadOperand, OperandsOf;
      OpcodeBytesRead(code, offset, op, next);
      ReadMeansShaped(code, op, next, operand);
      SizeParts(op);
    }

    lemma EntrySize(acc: Code, x: Instr)
      ensures CodeSize(acc + [x]) == CodeSize(acc) + Size(x.op)
      ensures x.op == CEE_SWITCH_ARG ==> Size(x.op) == 4
      ensures Size(x.op) == |OpcodeBytes(x.op)| + OperandSize(x.op)
    {
      OffsetsAtEnd(acc, x);
    }

    method ImportInstr(code: seq<byte>, offset: nat, op: nat, operand: Operand, ghost acc: Code)
      requires Importing(code, offset, acc) && Shaped(Instr(op, operand)) && offset + Size(op) <= |code|
      requires 0 < Size(op)
      modifies this`nodes, this`nInstrs, il`next, il`prev, nodes`next, nodes`prev, offsetToInstr
      ensures Importing(code, offset + Size(op), acc + [Instr(op, operand)])
      ensures forall i :: 0 <= i < |nodes| ==> nodes[i] in old(nodes) || fresh(nodes[i])
      ensures nInstrs - |nodes| == old(nInstrs - |nodes|)
    {
      hide Linked, RawHeldAll, Offset, IsTable, Size, Shaped;
      EntrySize(acc, Instr(op, operand));
      Append(op, operand, offset, acc);
    }

    method GetInstrFromOffset(o: nat, ghost c: Code) returns (n: ILInstr?)
      requires |c| == |nodes| && CodeSize(c) == codeSize && IsTable(offsetToInstr[..], nodes, il, c, codeSize)
      ensures n == NodeAt(nodes, il, Lookup(c, o))
    {
      hide Offset;
      if o <= codeSize {
        n := offsetToInstr[o];
        assert n == offsetToInstr[..][o];
      } else {
        n := null;
        NoInstrBeyond(c, o);
      }
    }

    lemma NoInstrBeyond(c: Code, o: nat)
      requires o > CodeSize(c)
      ensures Lookup(c, o) == None
    {
      hide Offset;
      if StartsAt(c, o, |c|).Some? {
        OffsetBelowSize(c, StartsAt(c, o, |c|).value);
      }
    }

    /** The targets of the first j instructions are resolved. */
    ghost predicate TargetSet(acc: Code, k: nat)
      requires k < |nodes| == |acc|
      reads this`nodes, nodes`target
    {
      acc[k].operand.Target? ==>
        && Lookup(acc, acc[k].operand.target).Some?
        && nodes[k].target == NodeAt(nodes, il, Lookup(acc, acc[k].operand.target))
    }

    method ResolveTargets(code: seq<byte>, ghost acc: Code) returns (ok: bool)
      requires Importing(code, |code|, acc)
      modifies nodes`target
      ensures ok <==> AllTargetsResolve(acc)
      ensures ok ==> Targeted() && Contents() == Resolved(acc)
    {
      hide Linked, Lookup, Offset, OperandsOf, IsTable, RawHeld, NodeAt, Resolved, CodeSize, Contents, InstrOf,
        Symbolic;
      ghost var j := 0;
      RingEnds();
      var p := il.next;
      while p != il
        invariant 0 <= j <= |nodes| && p == Ring(j)
        invariant forall k :: 0 <= k < j ==> TargetSet(acc, k)
        decreases |nodes| - j
      {
        label turn:
        RingStep(j);
        RawNode(acc, j);
        if OperandsOf(p.op).Branch? {
          var t := GetInstrFromOffset(p.arg, acc);
          NodeAtFound(acc, Lookup(acc, p.arg));
          if t == null {
            return false;
          }
          p.target := t;
        }
        forall k | 0 <= k <= j ensures TargetSet(acc, k) {
          assert k < j ==> nodes[k] != nodes[j] && old@turn(TargetSet(acc, k));
        }
        p := p.next;
        j := j + 1;
      }
      NotInRing(j);
      assert forall k :: 0 <= k < |acc| ==> TargetSet(acc, k);
      TargetsAllSet(acc);
      ok := true;
    }

    lemma RawNode(acc: Code, j: nat)
      requires RawHeldAll(acc) && j < |nodes|
      ensures nodes[j].op == acc[j].op && (OperandsOf(nodes[j].op).Branch? <==> acc[j].operand.Target?)
      ensures acc[j].operand.Target? ==> nodes[j].arg == acc[j].operand.target
    {
      hide OperandsOf;
      assert RawHeld(nodes[j], acc[j]);
    }

    lemma NodeAtFound(acc: Code, p: Option<nat>)
      requires p.Some? ==> p.value <= |nodes|
      ensures NodeAt(nodes, il, p) == null <==> p == None
    {
    }

    lemma TargetsAllSet(acc: Code)
      requires Linked() && RawHeldAll(acc) && forall k :: 0 <= k < |acc| ==> TargetSet(acc, k)
      ensures AllTargetsResolve(acc) && Targeted() && Contents() == Resolved(acc)
    {
      hide Lookup, Offset, OperandsOf, LittleEndian, Signed;
      forall k | 0 <= k < |acc|
        ensures acc[k].operand.Target? ==> Lookup(acc, acc[k].operand.target).Some?
        ensures OperandsOf(nodes[k].op).Branch? ==> Listed(nodes[k].target)
      {
        assert TargetSet(acc, k);
        RawNode(acc, k);
      }
      var c := Resolved(acc);
      forall k | 0 <= k < |acc| ensures Contents()[k] == c[k] {
        assert TargetSet(acc, k) && RawHeld(nodes[k], acc[k]);
        match acc[k].operand {
          case Nothing =>
          case Value(v) => ValueHeld(nodes[k], acc[k]);
          case Target(t) => IndexOfNode(Lookup(acc, t).value);
        }
      }
    }

    lemma ValueHeld(n: ILInstr, x: Instr)
      requires RawHeld(n, x) && x.operand.Value?
      ensures InstrOf(n) == x
    {
      hide OperandsOf, LittleEndian, Signed, Pow256;
      match OperandsOf(n.op) {
        case Constant(k) => SignedOfLittleEndian(n.arg, k);
        case SwitchCount => SignedOfLittleEndian(n.arg, 4);
      }
    }

    lemma IndexOfNode(p: nat)
      requires Linked() && p <= |nodes|
      ensures Listed(NodeAt(nodes, il, Some(p))) && Position(NodeAt(nodes, il, Some(p))) == p
    {
      if p < |nodes| {
        IndexOfMember(nodes, p);
      }
    }

    /** ImportIL on a fresh rewriter. */
    method ImportIL(code: seq<byte>) returns (hr: HResult)
      requires Linked() && nodes == [] && |code| < TWO_TO_THE_31
      modifies this`nodes, this`nInstrs, this`codeSize, this`offsetToInstr, il`next, il`prev
      ensures forall i :: 0 <= i < |nodes| ==> fresh(nodes[i])
      ensures hr.Ok? <==> Decode(code).Some?
      ensures hr.Ok? ==> Linked() && Targeted() && Contents() == Decode(code).value
      ensures hr.Ok? ==> codeSize == |code| == CodeSize(Contents())
      ensures hr.Ok? ==> IsTable(offsetToInstr[..], nodes, il, Contents(), codeSize)
      ensures nInstrs == old(nInstrs) + |nodes|
    {
      hide Linked, Offset, OperandsOf, IsTable, RawHeldAll, ParseFrom, AllTargetsResolve, Resolved, CodeSize;
      codeSize := |code|;
      offsetToInstr := new ILInstr?[|code| + 1](_ => null);
      offsetToInstr[|code|] := il;
      NothingImported(code);
      ghost var acc;
      var ok;
      ok, acc := ReadInstructions(code);
      if !ok {
        return InvalidProgram;
      }
      ok := ResolveTargets(code, acc);
      if !ok {
        return InvalidProgram;
      }
      TableOfResolved(acc);
      return Ok;
    }

    lemma NothingImported(code: seq<byte>)
      requires Linked() && nodes == [] && codeSize == |code|
      requires offsetToInstr.Length == |code| + 1 && offsetToInstr[|code|] == il
      requires forall o :: 0 <= o < |code| ==> offsetToInstr[o] == null
      ensures Importing(code, 0, [])
    {
    }

    lemma TableOfResolved(acc: Code)
      requires AllTargetsResolve(acc) && |acc| == |nodes| && IsTable(offsetToInstr[..], nodes, il, acc, codeSize)
      ensures IsTable(offsetToInstr[..], nodes, il, Resolved(acc), codeSize)
      ensures CodeSize(Resolved(acc)) == CodeSize(acc)
    {
      hide Offset, Lookup, StartsAt, AllTargetsResolve, Resolved, NodeAt;
      var c := Resolved(acc);
      ResolvedSameButTargets(acc);
      SameSwitches(c, acc);
      forall o: nat | o < codeSize ensures StartsAt(c, o, |c|) == StartsAt(acc, o, |acc|) {
        StartsAtSame(c, acc, o, |c|);
      }
    }

    // ---- Exception clauses ----

    ghost predicate ClauseListed(e: EHClause)
      reads this`nodes
    {
      ListedIn(nodes, il, e)
    }

    /** The clause with instructions replaced by their positions. */
    ghost function ClauseOf(e: EHClause): (x: Clause)
      reads this`nodes
    {
      ClauseIn(nodes, e)
    }

    lemma ClauseByPosition(e: EHClause)
      requires Listed(e.tryBegin) && Listed(e.tryEnd) && Listed(e.handlerBegin) && Listed(e.handlerEnd)
      requires e.selector.FilterRef? <==> HasFilter(e.flags)
      requires e.selector.FilterRef? ==> Listed(e.selector.first)
      ensures ClauseListed(e)
      ensures ClauseOf(e) == Clause(e.flags, Position(e.tryBegin), Position(e.tryEnd), Position(e.handlerBegin),
        Position(e.handlerEnd), if e.selector.TokenRef? then ClassToken(e.selector.token)
        else Filter(Position(e.selector.first)))
    {
      hide HasFilter, IndexIn;
    }

    lemma PrevPosition(n: ILInstr)
      requires Linked() && Listed(n)
      ensures Listed(n.prev) && Position(n.prev) == Before(|nodes|, Position(n))
    {
      var p: int := Position(n);
      assert Ring(p) == n && Ring(p - 1).next == Ring(p);
      if p > 0 {
        IndexOfMember(nodes, p - 1);
      }
    }

    lemma NextPosition(n: ILInstr)
      requires Linked() && Listed(n)
      ensures Listed(n.next) && Position(n.next) == After(|nodes|, Position(n))
    {
      var p: int := Position(n);
      if p < |nodes| {
        assert Ring(p) == n && Ring(p).next == Ring(p + 1);
        if p + 1 < |nodes| {
          IndexOfMember(nodes, p + 1);
        }
      } else {
        assert Ring(-1) == n && Ring(-1).next == Ring(0);
        if 0 < |nodes| {
          IndexOfMember(nodes, 0);
        }
      }
    }

    /** The offset table of the current list is in place. */
    ghost predicate TableReady()
      reads this`nodes, this`codeSize, this`offsetToInstr, offsetToInstr, nodes`op, nodes`arg, nodes`target
    {
      codeSize == CodeSize(Contents()) && IsTable(offsetToInstr[..], nodes, il, Contents(), codeSize)
    }

    /** The instruction at an offset, or null, with its position. */
    method Find(o: nat) returns (n: ILInstr?)
      requires Linked() && TableReady()
      ensures n == null <==> Lookup(Contents(), o).None?
      ensures n != null ==> Listed(n) && Lookup(Contents(), o) == Some(Position(n))
    {
      hide Linked, Lookup, Contents, CodeSize, IsTable, NodeAt;
      n := GetInstrFromOffset(o, Contents());
      NodeAtFound(Contents(), Lookup(Contents(), o));
      if n != null {
        IndexOfNode(Lookup(Contents(), o).value);
      }
    }

    /** Offsets a clause names, in the order ImportEH looks them up. */
    lemma MissingEnd(c: Code, f: FatClause)
      requires f.selector.Filter? <==> HasFilter(f.flags)
      ensures Lookup(c, Wrap32(f.tryOffset)).None? ==> ImportClause(c, f) == None
      ensures Lookup(c, Wrap32(f.tryOffset + f.tryLength)).None? ==> ImportClause(c, f) == None
      ensures Lookup(c, Wrap32(f.handlerOffset)).None? ==> ImportClause(c, f) == None
      ensures Lookup(c, Wrap32(f.handlerOffset + f.handlerLength)).None? ==> ImportClause(c, f) == None
      ensures f.selector.Filter? && Lookup(c, f.selector.at).None? ==> ImportClause(c, f) == None
    {
      hide Lookup, Wrap32, HasFilter;
    }

    lemma AllFound(c: Code, f: FatClause)
      requires f.selector.Filter? <==> HasFilter(f.flags)
      requires Lookup(c, Wrap32(f.tryOffset)).Some? && Lookup(c, Wrap32(f.tryOffset + f.tryLength)).Some?
      requires Lookup(c, Wrap32(f.handlerOffset)).Some? && Lookup(c, Wrap32(f.handlerOffset + f.handlerLength)).Some?
      requires f.selector.Filter? ==> Lookup(c, f.selector.at).Some?
      ensures ImportClause(c, f) == Some(Clause(f.flags, Lookup(c, Wrap32(f.tryOffset)).value,
        Lookup(c, Wrap32(f.tryOffset + f.tryLength)).value, Lookup(c, Wrap32(f.handlerOffset)).value,
        Before(|c|, Lookup(c, Wrap32(f.handlerOffset + f.handlerLength)).value),
        if f.selector.Filter? then Filter(Lookup(c, f.selector.at).value) else f.selector))
    {
      hide Lookup, Wrap32, HasFilter;
    }

    lemma AllEndsFound(f: FatClause, tb: ILInstr, te: ILInstr, hb: ILInstr, hn: ILInstr, sel: SelectorRef)
      requires f.selector.Filter? <==> HasFilter(f.flags)
      requires Linked() && Listed(tb) && Listed(te) && Listed(hb) && Listed(hn)
      requires Lookup(Contents(), Wrap32(f.tryOffset)) == Some(Position(tb))
      requires Lookup(Contents(), Wrap32(f.tryOffset + f.tryLength)) == Some(Position(te))
      requires Lookup(Contents(), Wrap32(f.handlerOffset)) == Some(Position(hb))
      requires Lookup(Contents(), Wrap32(f.handlerOffset + f.handlerLength)) == Some(Position(hn))
      requires match f.selector
        case ClassToken(t) => sel == TokenRef(t)
        case Filter(o) => sel.FilterRef? && Listed(sel.first) && Lookup(Contents(), o) == Some(Position(sel.first))
      ensures hn.prev != null
      ensures ImportClause(Contents(), f).Some? && ClauseImported(EHClause(f.flags, tb, te, hb, hn.prev, sel), f)
    {
      hide Linked, Lookup, Contents, Wrap32, HasFilter, ImportClause, Listed, Position, ClauseListed, ClauseOf,
        Before;
      PrevPosition(hn);
      AllFound(Contents(), f);
      ClauseByPosition(EHClause(f.flags, tb, te, hb, hn.prev, sel));
    }

    /** One iteration of ImportEH. */
    method ImportOneClause(f: FatClause) returns (r: Option<EHClause>)
      requires Linked() && TableReady()
      requires f.selector.Filter? <==> HasFilter(f.flags)
      ensures r.Some? <==> ImportClause(Contents(), f).Some?
      ensures r.Some? ==> ClauseImported(r.value, f)
    {
      hide Linked, Lookup, Contents, TableReady, Wrap32, HasFilter, ImportClause, Listed, Position, ClauseImported,
        Offset, CodeSize;
      MissingEnd(Contents(), f);
      var tryBegin := Find(Wrap32(f.tryOffset));
      if tryBegin == null { return None; }
      var tryEnd := Find(Wrap32(f.tryOffset + f.tryLength));
      if tryEnd == null { return None; }
      var handlerBegin := Find(Wrap32(f.handlerOffset));
      if handlerBegin == null { return None; }
      var handlerNext := Find(Wrap32(f.handlerOffset + f.handlerLength));
      if handlerNext == null { return None; }
      var selector;
      match f.selector {
        case ClassToken(t) =>
          selector := TokenRef(t);
        case Filter(o) =>
          var filter := Find(o);
          if filter == null { return None; }
          selector := FilterRef(filter);
      }
      AllEndsFound(f, tryBegin, tryEnd, handlerBegin, handlerNext, selector);
      r := Some(EHClause(f.flags, tryBegin, tryEnd, handlerBegin, handlerNext.prev, selector));
    }

    ghost predicate ClauseImported(e: EHClause, f: FatClause)
      requires f.selector.Filter? <==> HasFilter(f.flags)
      reads this`nodes, nodes`op, nodes`arg, nodes`target
    {
      ClauseListed(e) && ImportClause(Contents(), f) == Some(ClauseOf(e))
    }

    method ImportEH(fats: seq<FatClause>) returns (hr: HResult)
      requires Linked() && TableReady()
      requires forall i :: 0 <= i < |fats| ==> (fats[i].selector.Filter? <==> HasFilter(fats[i].flags))
      modifies this`eh, this`ehImported
      ensures old(ehImported) ==> hr == InvalidOperation && eh == old(eh) && ehImported
      ensures !old(ehImported) ==>
        (hr.Ok? <==> forall i :: 0 <= i < |fats| ==> ImportClause(Contents(), fats[i]).Some?)
      ensures hr.Ok? && |fats| > 0 ==>
        |eh| == |fats| && forall i :: 0 <= i < |fats| ==> ClauseImported(eh[i], fats[i])
      ensures hr.Ok? && |fats| == 0 ==> eh == old(eh)
    {
      hide Linked, TableReady, ImportClause, HasFilter, Contents, ClauseListed, ClauseOf, Offset, CodeSize, Symbolic,
        Lookup;
      if ehImported {
        return InvalidOperation;
      }
      if |fats| == 0 {
        return Ok;
      }
      ehImported, eh := true, [];
      var i := 0;
      while i < |fats|
        invariant 0 <= i <= |fats| && |eh| == i
        invariant forall k :: 0 <= k < i ==> ClauseImported(eh[k], fats[k])
      {
        var clause := ImportOneClause(fats[i]);
        if clause.None? {
          return InvalidProgram;
        }
        eh := eh + [clause.value];
        i := i + 1;
      }
      return Ok;
    }

    /** One iteration of the clause loop of Export. */
    method ExportOneClause(e: EHClause) returns (f: FatClause)
      requires Linked() && OffsetsSet(Contents()) && ClauseListed(e)
      ensures InList(Contents(), ClauseOf(e)) && f == ExportClause(Contents(), ClauseOf(e))
    {
      hide Linked, Offset, Contents, Wrap32, HasFilter, OffsetsSet, IndexIn;
      ghost var c := Contents();
      TargetOffset(c, e.tryBegin);
      TargetOffset(c, e.tryEnd);
      TargetOffset(c, e.handlerBegin);
      NextPosition(e.handlerEnd);
      TargetOffset(c, e.handlerEnd.next);
      var selector;
      match e.selector {
        case TokenRef(t) => selector := ClassToken(t);
        case FilterRef(n) =>
          TargetOffset(c, n);
          selector := Filter(n.offset);
      }
      f := FatClause(e.flags, e.tryBegin.offset, Wrap32(e.tryEnd.offset - e.tryBegin.offset),
        e.handlerBegin.offset, Wrap32(e.handlerEnd.next.offset - e.handlerBegin.offset), selector);
    }

    /** The clause table Export writes. */
    method ExportEH() returns (fats: seq<FatClause>)
      requires Linked() && OffsetsSet(Contents())
      requires forall i :: 0 <= i < |eh| ==> ClauseListed(eh[i])
      ensures |fats| == |eh|
      ensures forall i :: 0 <= i < |eh| ==>
        InList(Contents(), ClauseOf(eh[i])) && fats[i] == ExportClause(Contents(), ClauseOf(eh[i]))
    {
      hide Linked, Offset, Contents, Wrap32, HasFilter, OffsetsSet, ClauseListed, InList, ExportClause, ClauseOf;
      fats := [];
      var i := 0;
      while i < |eh|
        invariant 0 <= i <= |eh| && |fats| == i
        invariant forall k :: 0 <= k < i ==>
          InList(Contents(), ClauseOf(eh[k])) && fats[k] == ExportClause(Contents(), ClauseOf(eh[k]))
      {
        var f := ExportOneClause(eh[i]);
        fats := fats + [f];
        i := i + 1;
      }
    }

    // ---- The whole pipeline ----

    /** A clause in the ranges of its 32-bit fields, with a filter offset exactly when its flags say so. */
    predicate IsFat(f: FatClause) {
      && IsWord(f.tryOffset) && IsWord(f.tryLength) && IsWord(f.handlerOffset) && IsWord(f.handlerLength)
      && (f.selector.Filter? <==> HasFilter(f.flags))
    }

    predicate AllClausesImport(c: Code, fats: seq<FatClause>)
      requires forall i :: 0 <= i < |fats| ==> IsFat(fats[i])
    {
      forall i :: 0 <= i < |fats| ==> IsFat(fats[i]) && ImportClause(c, fats[i]).Some?
    }

    /**
     * Import and export with no edits in between: the method either is rejected, or comes back with the
     * same code bytes and the same clause table.
     */
    method ImportAndExport(code: seq<byte>, fats: seq<FatClause>)
        returns (hr: HResult, size: nat, fats': seq<FatClause>)
      requires Linked() && nodes == [] && nInstrs == 0 && !ehImported && eh == []
      requires 10 * |code| < TWO_TO_THE_31 && forall i :: 0 <= i < |fats| ==> IsFat(fats[i])
      modifies this, il`next, il`prev, il`offset
      ensures hr.Ok? <==> Decode(code).Some? && AllClausesImport(Decode(code).value, fats)
      ensures hr.Ok? ==> size <= output.Length && output[..size] == code && fats' == fats
    {
      hide Linked, Offset, Contents, HasFilter, ImportClause, ExportClause, IsTable, Targeted, CodeSize, Decode,
        Relax, Settled, WellFormed, Encode, OffsetsSet, ClauseListed, ClauseOf, ValidOpcodes;
      size, fats' := 0, [];
      hr := ImportIL(code);
      if hr != Ok {
        return;
      }
      ghost var c := Contents();
      EncodeOfDecode(code);
      FewerInstrsThanBytes(c);
      ContentsValid(c);
      hr := ImportEH(fats);
      if hr != Ok {
        return;
      }
      assert |eh| == |fats| && forall i :: 0 <= i < |fats| ==> ClauseImported(eh[i], fats[i]);
      assert c == Contents() && forall i :: 0 <= i < |nodes| ==> fresh(nodes[i]);
      hr, size := Export();
      fats' := ExportEH();
      forall i | 0 <= i < |fats| ensures fats'[i] == fats[i] {
        ExportOfImportedClause(c, fats[i]);
      }
    }

    lemma ContentsValid(c: Code)
      requires c == Contents() && WellFormed(c)
      ensures ValidOpcodes()
    {
      hide Offset, Shaped, Pending, InstrOf, TargetsAreInstructions, OperandsOf;
      forall n | n in nodes ensures n.op < FLAG_TABLE_SIZE {
        var k :| 0 <= k < |nodes| && nodes[k] == n;
        assert c[k] == InstrOf(n);
      }
    }

    lemma FewerInstrsThanBytes(c: Code)
      requires WellFormed(c)
      ensures |c| <= CodeSize(c)
    {
      hide Pending, Offset, AllShaped, TargetsListed, TargetsAreInstructions;
      AtLeastOneByteEach(c, |c|);
    }

    lemma {:induction false} AtLeastOneByteEach(c: Code, i: nat)
      requires SwitchesComplete(c) && i <= |c|
      ensures i <= Offset(c, i)
    {
      hide Pending, Size;
      if i > 0 {
        AtLeastOneByteEach(c, i - 1);
        RealSize(c[i - 1].op);
      }
    }

    // ---- Edits ----

    /** Every branch of s names the sentinel or an instruction of s. */
    ghost predicate TargetedIn(s: seq<ILInstr>)
      reads s`op, s`target
    {
      forall n :: n in s && OperandsOf(n.op).Branch? ==> n.target != null && (n.target == il || n.target in s)
    }

    lemma LinkedParts()
      requires Linked()
      ensures Distinct(nodes) && il !in nodes
    {
    }

    /** Instruction n is in the same regions of e as it was before the edits. */
    twostate predicate SameRegions(e: EHClause, n: ILInstr)
      reads this`nodes
    {
      && (InTry(ClauseOf(e), Position(n)) <==> old(InTry(ClauseOf(e), Position(n))))
      && (InHandler(ClauseOf(e), Position(n)) <==> old(InHandler(ClauseOf(e), Position(n))))
    }

    /** Insertions leave every instruction that was there before in the same regions. */
    twostate predicate OldRegionsKept()
      reads this`nodes, this`eh
    {
      eh == old(eh) && forall j, n :: 0 <= j < |eh| && n in old(nodes) ==> SameRegions(eh[j], n)
    }

    /** A clause with ordered regions before still has them. */
    twostate predicate OldOrderKept()
      reads this`nodes, this`eh
    {
      eh == old(eh) && forall j :: 0 <= j < |eh| && old(Ordered(ClauseOf(eh[j]), |nodes|)) ==>
        Ordered(ClauseOf(eh[j]), |nodes|)
    }

    /** The exported numbers of every clause with ordered regions are exactly their bytes. */
    ghost predicate AllCover(fats: seq<FatClause>)
      reads this`nodes, this`eh, nodes`op, nodes`arg, nodes`target
    {
      |fats| == |eh| && forall j :: 0 <= j < |eh| && Ordered(ClauseOf(eh[j]), |nodes|) ==>
        Covers(Contents(), fats[j], ClauseOf(eh[j]))
    }

    method Insert(e: Edit)
      requires Linked() && Listed(e.where) && !Listed(e.what)
      modifies this`nodes, e.what`next, e.what`prev, il`next, il`prev, nodes`next, nodes`prev
      ensures Linked() && nodes == EditedOnce(old(nodes), e)
    {
      hide Linked, Spliced, IndexIn, After;
      if e.behind {
        InsertAfter(e.where, e.what);
      } else {
        InsertBefore(e.where, e.what);
      }
    }

    /** Any sequence of insertions, before or behind listed instructions. */
    method InsertAll(edits: seq<Edit>)
      requires Linked() && Editable(nodes, il, edits)
      modifies this`nodes, Inserted(edits)`next, Inserted(edits)`prev, il`next, il`prev, nodes`next, nodes`prev
      ensures Linked() && nodes == Edited(old(nodes), edits)
      decreases |edits|
    {
      if edits == [] {
        return;
      }
      hide Linked, EditedOnce, Editable, Edited;
      FirstEdit(nodes, il, edits);
      Insert(edits[0]);
      InsertAll(edits[1..]);
    }

    /** Insertions leave every instruction that was there before in the same try and handler regions. */
    method ApplyEdits(edits: seq<Edit>)
      requires Linked() && Editable(nodes, il, edits)
      requires forall j :: 0 <= j < |eh| ==> ClauseListed(eh[j])
      modifies this`nodes, Inserted(edits)`next, Inserted(edits)`prev, il`next, il`prev, nodes`next, nodes`prev
      ensures Linked() && nodes == Edited(old(nodes), edits)
      ensures forall j :: 0 <= j < |eh| ==> ClauseListed(eh[j])
      ensures OldRegionsKept() && OldOrderKept()
    {
      hide Linked, InTry, InHandler, MovedClause, Ordered, Editable, Edited, Points, Inserted, Distinct, IndexIn,
        ListedIn, ClauseIn;
      ghost var s := nodes;
      LinkedParts();
      InsertAll(edits);
      forall j | 0 <= j < |eh|
        ensures ClauseListed(eh[j])
        ensures Ordered(old(ClauseOf(eh[j])), |s|) ==> Ordered(ClauseOf(eh[j]), |nodes|)
        ensures forall n :: n in s ==> SameRegions(eh[j], n)
      {
        ClauseMoves(s, il, edits, eh[j]);
        var x := old(ClauseOf(eh[j]));
        if Ordered(x, |s|) {
          OrderSurvivesEdits(s, il, edits, x);
        }
        forall n | n in s ensures SameRegions(eh[j], n) {
          RegionsSurviveEdits(s, il, edits, x, n);
        }
      }
    }

    lemma AllTargeted()
      requires Linked() && TargetedIn(nodes)
      ensures Targeted()
    {
      hide OperandsOf;
    }

    lemma ValidMeans()
      ensures ValidOpcodes() <==> forall k :: 0 <= k < |nodes| ==> nodes[k].op < FLAG_TABLE_SIZE
    {
    }

    /** An instruction widened or left alone. */
    lemma OnlyWidened(ops: Code, k: nat)
      requires k < |nodes| == |ops| && Widens(ops, Contents())
      ensures Kept(ops[k].op, nodes[k].op)
    {
      hide OperandsOf, IsShortBranch, InstrOf, Long;
      assert Contents()[k].op == nodes[k].op;
    }

    lemma AllCovered(fats: seq<FatClause>)
      requires |fats| == |eh|
      requires forall j :: 0 <= j < |eh| ==>
        InList(Contents(), ClauseOf(eh[j])) && fats[j] == ExportClause(Contents(), ClauseOf(eh[j]))
      requires 10 * |nodes| < TWO_TO_THE_31
      ensures AllCover(fats)
    {
      hide InList, ExportClause, ClauseOf, Ordered, Covers, Contents, Offset;
      ghost var c := Contents();
      assert CodeSize(c) <= 10 * |c|;
      forall j | 0 <= j < |eh| && Ordered(ClauseOf(eh[j]), |nodes|) ensures Covers(c, fats[j], ClauseOf(eh[j])) {
        ExportedClauseCovers(c, ClauseOf(eh[j]));
      }
    }

    /** What was written reads back: the code to the list, the clauses to themselves. */
    ghost predicate ReadsBack(size: nat, fats: seq<FatClause>)
      reads this, output, nodes`op, nodes`arg, nodes`target
    {
      && size <= output.Length && Decode(output[..size]) == Some(Contents())
      && |fats| == |eh| && forall j :: 0 <= j < |eh| ==> Reimports(Contents(), fats[j], ClauseOf(eh[j]))
    }

    /** The relaxation of a well-formed list is well formed, and decodes from what Export writes for it. */
    lemma RelaxedDecodes(ops: Code)
      requires WellFormed(ops) && Contents() == Relax(ops) && 10 * |nodes| < TWO_TO_THE_31
      ensures WellFormed(Contents()) && Decode(Encode(Contents())) == Some(Contents())
    {
      hide Contents, Relax, Decode, Encode, Widens, Settled, Offset, Symbolic, SwitchesComplete,
        TargetsAreInstructions;
      assert CodeSize(Contents()) <= 10 * |Contents()|;
      hide CodeSize;
      RelaxSettles(ops);
      WideningKeepsWellFormed(ops, Contents());
      ExportPreservesMeaning(ops);
    }

    lemma AllReadsBack(ops: Code, size: nat, fats: seq<FatClause>)
      requires WellFormed(ops) && Contents() == Relax(ops) && 10 * |nodes| < TWO_TO_THE_31 && |fats| == |eh|
      requires size <= output.Length && output[..size] == Encode(Contents())
      requires forall j :: 0 <= j < |eh| ==>
        InList(Contents(), ClauseOf(eh[j])) && fats[j] == ExportClause(Contents(), ClauseOf(eh[j]))
      ensures ReadsBack(size, fats)
    {
      hide Contents, Relax, WellFormed, Decode, Encode, Reimports, ExportClause, ClauseOf, InList;
      RelaxedDecodes(ops);
      forall j | 0 <= j < |eh| ensures Reimports(Contents(), fats[j], ClauseOf(eh[j])) {
        ExportedClauseReimports(Contents(), ClauseOf(eh[j]));
      }
    }

    /** Export with its clause table, which covers exactly the bytes of every ordered clause's regions. */
    method ExportAll() returns (hr: HResult, size: nat, fats: seq<FatClause>)
      requires Linked() && Targeted() && |nodes| <= nInstrs && 10 * nInstrs < TWO_TO_THE_31
      requires forall j :: 0 <= j < |eh| ==> ClauseListed(eh[j])
      modifies this`output, il`offset, nodes`offset, nodes`op
      ensures hr.Ok? <==> old(ValidOpcodes())
      ensures hr.Ok? ==> Linked() && Settled(Contents())
      ensures hr.Ok? ==> size <= output.Length && output[..size] == Encode(Contents())
      ensures hr.Ok? ==> Contents() == Relax(old(Contents()))
      ensures hr.Ok? ==> forall k :: 0 <= k < |nodes| ==> Kept(old(nodes[k].op), nodes[k].op)
      ensures hr.Ok? && WellFormed(old(Contents())) ==> ReadsBack(size, fats)
      ensures hr.Ok? ==> AllCover(fats)
    {
      hide Linked, Targeted, OffsetsSet, Encode, Relax, Settled, Widens, ValidOpcodes, Contents, Kept, CodeSize,
        Covers, InList, ExportClause, ClauseListed, ClauseOf, Ordered, InstrOf;
      size, fats := 0, [];
      ghost var ops := Contents();
      hr, size := Export();
      if hr.Ok? {
        RelaxSettles(ops);
        forall k | 0 <= k < |nodes| ensures Kept(old(nodes[k].op), nodes[k].op) {
          OnlyWidened(ops, k);
        }
        fats := ExportEH();
        AllCovered(fats);
        if WellFormed(ops) {
          AllReadsBack(ops, size, fats);
        }
      }
    }

    /**
     * Insertions and then Export: every instruction that was there before is in the same try and handler
     * regions as before, the list written is the least widening of the edited one, and the clause table covers
     * exactly the bytes of its regions. A well-formed list reads back from what was written.
     */
    method EditAndExport(edits: seq<Edit>) returns (hr: HResult, size: nat, fats: seq<FatClause>)
      requires Linked() && Editable(nodes, il, edits)
      requires TargetedIn(Edited(nodes, edits))
      requires |nodes| + |edits| <= nInstrs && 10 * nInstrs < TWO_TO_THE_31
      requires forall j :: 0 <= j < |eh| ==> ClauseListed(eh[j])
      modifies this`nodes, this`output, il`next, il`prev, il`offset, nodes`next, nodes`prev, nodes`offset, nodes`op
      modifies Inserted(edits)`next, Inserted(edits)`prev, Inserted(edits)`offset, Inserted(edits)`op
      ensures nodes == Edited(old(nodes), edits)
      ensures hr.Ok? <==> forall k :: 0 <= k < |nodes| ==> old(Edited(nodes, edits)[k].op) < FLAG_TABLE_SIZE
      ensures hr.Ok? ==> Linked() && Settled(Contents())
      ensures hr.Ok? ==> size <= output.Length && output[..size] == Encode(Contents())
      ensures hr.Ok? ==> Contents() == Relax(old(CodeIn(Edited(nodes, edits))))
      ensures hr.Ok? ==> forall k :: 0 <= k < |nodes| ==> Kept(old(Edited(nodes, edits)[k].op), nodes[k].op)
      ensures hr.Ok? && WellFormed(old(CodeIn(Edited(nodes, edits)))) ==> ReadsBack(size, fats)
      ensures OldRegionsKept() && OldOrderKept()
      ensures hr.Ok? ==> AllCover(fats)
    {
      hide Linked, Targeted, Encode, Settled, Contents, Editable, EditedOnce, Edited, Kept, Covers, ClauseListed,
        ClauseOf, Ordered, SameRegions, ValidOpcodes, OperandsOf, CodeIn, WellFormed, Relax, ReadsBack, IndexIn,
        AllCover, OldRegionsKept, OldOrderKept;
      LinkedParts();
      EditedMembers(nodes, il, edits);
      ghost var t := Edited(nodes, edits);
      ApplyEdits(edits);
      assert forall k :: 0 <= k < |t| ==>
        t[k].op == old(t[k].op) && t[k].arg == old(t[k].arg) && t[k].target == old(t[k].target);
      assert Contents() == old(CodeIn(t));
      AllTargeted();
      ValidMeans();
      hr, size, fats := ExportAll();
    }
  }

  // ---- Edits as values ----

  /** Insertion of what before or behind the instruction where. */
  datatype Edit = Edit(behind: bool, where: ILInstr, what: ILInstr)

  ghost function Inserted(edits: seq<Edit>): (s: seq<ILInstr>)
    ensures |s| == |edits| && forall i :: 0 <= i < |s| ==> s[i] == edits[i].what
  {
    seq(|edits|, i requires 0 <= i < |edits| => edits[i].what)
  }

  /** The position an edit of s inserts at. */
  ghost function InsertionPoint(s: seq<ILInstr>, e: Edit): (k: nat)
    ensures k <= |s|
  {
    if e.behind then After(|s|, IndexIn(s, e.where)) else IndexIn(s, e.where)
  }

  ghost function EditedOnce(s: seq<ILInstr>, e: Edit): (t: seq<ILInstr>)
    ensures |t| == |s| + 1
  {
    ILRewriter.Spliced(s, InsertionPoint(s, e), e.what)
  }

  ghost function Edited(s: seq<ILInstr>, edits: seq<Edit>): (t: seq<ILInstr>)
    ensures |t| == |s| + |edits|
    decreases |edits|
  {
    if edits == [] then s else Edited(EditedOnce(s, edits[0]), edits[1..])
  }

  /** The positions inserted at, one after the other. */
  ghost function Points(s: seq<ILInstr>, edits: seq<Edit>): (ks: seq<nat>)
    decreases |edits|
  {
    if edits == [] then [] else [InsertionPoint(s, edits[0])] + Points(EditedOnce(s, edits[0]), edits[1..])
  }

  /** Every edit names a place that is listed by then and an instruction that is not. */
  ghost predicate Editable(s: seq<ILInstr>, il: ILInstr, edits: seq<Edit>)
    decreases |edits|
  {
    edits == []
    || (
      && (edits[0].where == il || edits[0].where in s)
      && edits[0].what != il && edits[0].what !in s
      && Editable(EditedOnce(s, edits[0]), il, edits[1..]))
  }

  /** Opcode before and after Export. */
  ghost predicate Kept(before: nat, after: nat) {
    after == before || (IsShortBranch(before) && after == Long(before))
  }

  lemma FirstEdit(s: seq<ILInstr>, il: ILInstr, edits: seq<Edit>)
    requires edits != [] && Editable(s, il, edits)
    ensures edits[0].where == il || edits[0].where in s
    ensures edits[0].what != il && edits[0].what !in s
    ensures Editable(EditedOnce(s, edits[0]), il, edits[1..])
    ensures Edited(s, edits) == Edited(EditedOnce(s, edits[0]), edits[1..])
    ensures forall n :: n in EditedOnce(s, edits[0]) ==> n in s || n == edits[0].what
    ensures Inserted(edits) == [edits[0].what] + Inserted(edits[1..])
  {
    SplicedMembers(s, InsertionPoint(s, edits[0]), edits[0].what);
  }

  lemma SplicedMembers(s: seq<ILInstr>, k: nat, what: ILInstr)
    requires k <= |s|
    ensures forall n :: n in ILRewriter.Spliced(s, k, what) ==> n in s || n == what
    ensures forall n :: n in s || n == what ==> n in ILRewriter.Spliced(s, k, what)
    ensures Distinct(s) && what !in s ==> Distinct(ILRewriter.Spliced(s, k, what))
  {
    var t := ILRewriter.Spliced(s, k, what);
    assert t[k] == what;
    forall n | n in s ensures n in t {
      var i :| 0 <= i < |s| && s[i] == n;
      assert t[Shifted(k, i)] == n;
    }
  }

  /** The list after the edits holds nothing but the old instructions and the inserted ones. */
  lemma {:induction false} EditedMembers(s: seq<ILInstr>, il: ILInstr, edits: seq<Edit>)
    requires Distinct(s) && il !in s && Editable(s, il, edits)
    ensures Distinct(Edited(s, edits)) && il !in Edited(s, edits)
    ensures forall i :: 0 <= i < |s| + |edits| ==> Edited(s, edits)[i] in s + Inserted(edits)
    decreases |edits|
  {
    if edits != [] {
      hide ILRewriter.Spliced, InsertionPoint, Distinct;
      SplicedMembers(s, InsertionPoint(s, edits[0]), edits[0].what);
      EditedMembers(EditedOnce(s, edits[0]), il, edits[1..]);
      assert Inserted(edits) == [edits[0].what] + Inserted(edits[1..]);
    }
  }

  /** What was listed before the edits stays listed, at the position the insertions shift it to. */
  lemma {:induction false} PositionsAfterEdits(s: seq<ILInstr>, il: ILInstr, edits: seq<Edit>, n: ILInstr)
    requires Distinct(s) && il !in s && Editable(s, il, edits) && (n == il || n in s)
    ensures n in s ==> n in Edited(s, edits)
    ensures IndexIn(Edited(s, edits), n) == ShiftedAll(Points(s, edits), IndexIn(s, n))
    decreases |edits|
  {
    if edits != [] {
      hide ILRewriter.Spliced, InsertionPoint, Distinct, Shifted, IndexIn;
      var k := InsertionPoint(s, edits[0]);
      SplicedMembers(s, k, edits[0].what);
      PositionAfterSplice(s, k, edits[0].what, n);
      PositionsAfterEdits(EditedOnce(s, edits[0]), il, edits[1..], n);
      assert Points(s, edits)[0] == k && Points(s, edits)[1..] == Points(EditedOnce(s, edits[0]), edits[1..]);
    }
  }

  /** Edits leave a clause's instructions listed, and move their positions. */
  lemma ClauseMoves(s: seq<ILInstr>, il: ILInstr, edits: seq<Edit>, e: EHClause)
    requires Distinct(s) && il !in s && Editable(s, il, edits) && ListedIn(s, il, e)
    ensures ListedIn(Edited(s, edits), il, e)
    ensures ClauseIn(Edited(s, edits), e) == MovedClause(Points(s, edits), ClauseIn(s, e))
  {
    hide Edited, Points, Editable, IndexIn, HasFilter, ShiftedAll, Distinct;
    PositionsAfterEdits(s, il, edits, e.tryBegin);
    PositionsAfterEdits(s, il, edits, e.tryEnd);
    PositionsAfterEdits(s, il, edits, e.handlerBegin);
    PositionsAfterEdits(s, il, edits, e.handlerEnd);
    if e.selector.FilterRef? {
      PositionsAfterEdits(s, il, edits, e.selector.first);
    }
  }

  /** Every old instruction is in the same regions of a clause as before the edits. */
  lemma RegionsSurviveEdits(s: seq<ILInstr>, il: ILInstr, edits: seq<Edit>, x: Clause, n: ILInstr)
    requires Distinct(s) && il !in s && Editable(s, il, edits) && n in s
    ensures InTry(MovedClause(Points(s, edits), x), IndexIn(Edited(s, edits), n)) <==> InTry(x, IndexIn(s, n))
    ensures InHandler(MovedClause(Points(s, edits), x), IndexIn(Edited(s, edits), n)) <==> InHandler(x, IndexIn(s, n))
  {
    hide *;
    PositionsAfterEdits(s, il, edits, n);
    RegionsSurviveInsertion(Points(s, edits), x, IndexIn(s, n));
  }

  /** Ordered regions stay ordered and before the end of the list. */
  lemma OrderSurvivesEdits(s: seq<ILInstr>, il: ILInstr, edits: seq<Edit>, x: Clause)
    requires Distinct(s) && il !in s && Editable(s, il, edits) && Ordered(x, |s|)
    ensures Ordered(MovedClause(Points(s, edits), x), |s| + |edits|)
  {
    hide Edited, Points, Editable, ShiftedAll, Distinct;
    var ks := Points(s, edits);
    EditedMembers(s, il, edits);
    PositionsAfterEdits(s, il, edits, il);
    ShiftsKeepOrder(ks, x.tryEnd, x.tryBegin);
    ShiftsKeepOrder(ks, x.handlerEnd, x.handlerBegin);
    ShiftsKeepOrder(ks, x.handlerEnd, |s|);
  }

  /** Splicing an instruction in shifts the positions of the ones behind it, and of the sentinel. */
  lemma PositionAfterSplice(s: seq<ILInstr>, k: nat, what: ILInstr, n: ILInstr)
    requires Distinct(s) && k <= |s| && what !in s && n != what
    ensures IndexIn(ILRewriter.Spliced(s, k, what), n) == Shifted(k, IndexIn(s, n))
  {
    var t := ILRewriter.Spliced(s, k, what);
    if n in s {
      var p := IndexIn(s, n);
      assert t[Shifted(k, p)] == n;
      IndexOfMember(t, Shifted(k, p));
    } else {
      assert n !in t;
    }
  }

  /** Ring position p, or null when there is none. */
  ghost function NodeAt(s: seq<ILInstr>, il: ILInstr, p: Option<nat>): (n: ILInstr?)
    requires p.Some? ==> p.value <= |s|
  {
    if p.None? then null else if p.value < |s| then s[p.value] else il
  }

  /** The offset table for the instructions read so far; the last entry is the sentinel's. */
  ghost predicate IsTable(table: seq<ILInstr?>, s: seq<ILInstr>, il: ILInstr, acc: Code, size: nat)
    requires |acc| == |s|
  {
    && |table| == size + 1 && table[size] == il
    && forall o :: 0 <= o < size ==> table[o] == NodeAt(s, il, StartsAt(acc, o, |acc|))
  }

  lemma TableExtended(before: seq<ILInstr?>, after: seq<ILInstr?>, s: seq<ILInstr>, il: ILInstr, n: ILInstr,
      acc: Code, x: Instr, size: nat)
    requires |acc| == |s| && IsTable(before, s, il, acc, size) && CodeSize(acc) < size
    requires after == if x.op == CEE_SWITCH_ARG then before else before[CodeSize(acc) := n]
    ensures IsTable(after, s + [n], il, acc + [x], size)
  {
    hide Offset, StartsAt;
    forall o | 0 <= o < size ensures after[o] == NodeAt(s + [n], il, StartsAt(acc + [x], o, |acc| + 1)) {
      StartsAtAppend(acc, x, o);
    }
  }

  lemma StartsAtAppend(acc: Code, x: Instr, o: nat)
    ensures StartsAt(acc + [x], o, |acc| + 1) ==
      if x.op != CEE_SWITCH_ARG && CodeSize(acc) == o then Some(|acc|) else StartsAt(acc, o, |acc|)
  {
    hide Offset;
    PrefixOnly(acc, acc + [x], |acc|);
    StartsAtPrefixOnly(acc, acc + [x], o, |acc|);
  }

  lemma StartsAtStep(c: Code, o: nat, i: nat)
    requires i < |c|
    ensures StartsAt(c, o, i + 1) ==
      if c[i].op != CEE_SWITCH_ARG && Offset(c, i) == o then Some(i) else StartsAt(c, o, i)
  {
    hide Offset;
  }

  lemma {:induction false} StartsAtPrefixOnly(c: Code, d: Code, o: nat, i: nat)
    requires c <= d && i <= |c|
    ensures StartsAt(d, o, i) == StartsAt(c, o, i)
  {
    if i > 0 {
      hide *;
      var k := i - 1;
      StartsAtPrefixOnly(c, d, o, k);
      StartsAtStep(c, o, k);
      StartsAtStep(d, o, k);
      PrefixOnly(c, d, k);
      if d[k].op != CEE_SWITCH_ARG && Offset(d, k) == o {
        assert StartsAt(d, o, i) == Some(k) == StartsAt(c, o, i);
      } else {
        assert StartsAt(d, o, i) == StartsAt(d, o, k);
        assert StartsAt(c, o, i) == StartsAt(c, o, k);
      }
    }
  }
}
