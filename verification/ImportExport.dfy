/**
 * The main results about code bytes: ImportIL undoes Export, Export undoes ImportIL, and what Export
 * writes for any well-formed list decodes to that list with the fewest possible branches widened.
 */
module ImportExport {
  import opened Bytes
  import opened Opcodes
  import opened InstructionList
  import opened BranchRelaxation
  import opened Disassembly
  import opened RoundTrip

  // ---- Symbolic lists and their layouts ----

  /** Lists that differ in branch targets only have the same layout. */
  ghost predicate SameButTargets(c: Code, r: Code) {
    && |c| == |r|
    && forall i :: 0 <= i < |c| ==>
      c[i].op == r[i].op && (c[i].operand == r[i].operand || (c[i].operand.Target? && r[i].operand.Target?))
  }

  lemma {:induction false} SameLayout(c: Code, r: Code, i: nat)
    requires SameButTargets(c, r) && i <= |c|
    ensures Offset(c, i) == Offset(r, i) && SwitchBase(c, i) == SwitchBase(r, i) && Pending(c, i) == Pending(r, i)
  {
    if i > 0 {
      hide Size;
      SameLayout(c, r, i - 1);
    }
  }

  lemma SameSwitches(c: Code, r: Code)
    requires SameButTargets(c, r)
    ensures SwitchesComplete(c) <==> SwitchesComplete(r)
    ensures CodeSize(c) == CodeSize(r)
  {
    hide Size, IsRealOpcode;
    forall i | 0 <= i <= |c| ensures Pending(c, i) == Pending(r, i) {
      SameLayout(c, r, i);
    }
    SameLayout(c, r, |c|);
  }

  lemma LaidOutSameButTargets(c: Code)
    requires TargetsListed(c)
    ensures SameButTargets(c, LaidOut(c))
  {
    hide Offset;
  }

  lemma ResolvedSameButTargets(r: Code)
    requires AllTargetsResolve(r)
    ensures SameButTargets(Resolved(r), r)
  {
    hide Lookup;
  }

  /** Laying out what was resolved gives the original offsets back. */
  lemma LaidOutOfResolved(r: Code)
    requires AllTargetsResolve(r)
    ensures LaidOut(Resolved(r)) == r
  {
    var c := Resolved(r);
    ResolvedSameButTargets(r);
    forall i | 0 <= i < |r|
      ensures LaidOut(c)[i] == r[i]
    {
      if r[i].operand.Target? {
        SameLayout(c, r, c[i].operand.target);
      }
    }
  }

  lemma RealSize(op: nat)
    requires IsRealOpcode(op) || op == CEE_SWITCH_ARG
    ensures Size(op) > 0
  {
  }

  lemma {:induction false} OffsetsIncrease(c: Code, i: nat, j: nat)
    requires SwitchesComplete(c) && i < j <= |c|
    ensures Offset(c, i) < Offset(c, j)
    decreases j
  {
    hide Size, Pending;
    RealSize(c[j - 1].op);
    if i < j - 1 {
      OffsetsIncrease(c, i, j - 1);
    }
  }

  /** The offset table maps the offset of an instruction back to that instruction. */
  lemma LookupOfOffset(c: Code, p: nat)
    requires SwitchesComplete(c) && p <= |c| && (p < |c| ==> c[p].op != CEE_SWITCH_ARG)
    ensures Lookup(c, Offset(c, p)) == Some(p)
  {
    hide Pending, Size, Offset, SwitchesComplete;
    if p < |c| {
      OffsetsIncrease(c, p, |c|);
      var q := StartsAt(c, Offset(c, p), |c|).value;
      if q < p {
        OffsetsIncrease(c, q, p);
      } else if p < q {
        OffsetsIncrease(c, p, q);
      }
    }
  }

  lemma LookupSame(c: Code, r: Code, o: nat)
    requires SameButTargets(c, r)
    ensures Lookup(c, o) == Lookup(r, o)
  {
    hide Offset, StartsAt;
    SameLayout(c, r, |c|);
    StartsAtSame(c, r, o, |c|);
  }

  lemma {:induction false} StartsAtSame(c: Code, r: Code, o: nat, i: nat)
    requires SameButTargets(c, r) && i <= |c|
    ensures StartsAt(c, o, i) == StartsAt(r, o, i)
  {
    hide Offset;
    if i > 0 {
      SameLayout(c, r, i - 1);
      StartsAtSame(c, r, o, i - 1);
    }
  }

  /** Resolving what was laid out gives the symbolic list back. */
  lemma ResolvedOfLaidOut(c: Code)
    requires WellFormed(c)
    ensures AllTargetsResolve(LaidOut(c)) && Resolved(LaidOut(c)) == c
  {
    hide Lookup, Offset, SwitchesComplete, Shaped;
    var r := LaidOut(c);
    LaidOutSameButTargets(c);
    forall i | 0 <= i < |r| && r[i].operand.Target?
      ensures Lookup(r, r[i].operand.target) == Some(c[i].operand.target)
    {
      LookupOfOffset(c, c[i].operand.target);
      LookupSame(c, r, r[i].operand.target);
    }
  }

  // ---- Distances ----

  lemma {:induction false} OffsetBelowSize(c: Code, i: nat)
    requires i <= |c|
    ensures Offset(c, i) <= CodeSize(c)
    decreases |c| - i
  {
    if i < |c| {
      hide Size;
      OffsetBelowSize(c, i + 1);
    }
  }

  lemma BaseBelowSize(c: Code, i: nat)
    requires AllShaped(c) && SwitchesComplete(c) && i < |c|
    ensures 0 <= BranchBase(c, i) <= CodeSize(c)
  {
    hide Size, Offset, OperandsOf, Pending;
    OffsetBelowSize(c, i + 1);
    if c[i].op == CEE_SWITCH_ARG {
      SwitchBaseEndsTable(c, i);
      OwedEntriesFit(c, i);
    }
  }

  /** In a settled list every distance is representable in the form its branch has. */
  lemma SettledDistancesFit(c: Code)
    requires WellFormed(c) && Settled(c)
    ensures Assemblable(LaidOut(c))
  {
    hide *;
    WellFormedMeans(c);
    var r := LaidOut(c);
    LaidOutSameButTargets(c);
    LaidOutIsShaped(c);
    SameSwitches(c, r);
    forall i | 0 <= i < |c| && c[i].operand.Target?
      ensures DistanceFits(r, i)
    {
      SettledDistanceFits(c, i);
    }
    ToAssemblable(c, r);
  }

  predicate DistanceFits(r: Code, i: nat)
    requires i < |r|
  {
    r[i].operand.Target? && OperandsOf(r[i].op).Branch? ==>
      && r[i].operand.target < TWO_TO_THE_31
      && InRange(r[i].operand.target - BranchBase(r, i), OperandsOf(r[i].op).size)
  }

  lemma ToAssemblable(c: Code, r: Code)
    requires AllShaped(r) && SwitchesComplete(r) && CodeSize(r) < TWO_TO_THE_31 && SameButTargets(c, r)
    requires forall i :: 0 <= i < |c| && c[i].operand.Target? ==> DistanceFits(r, i)
    ensures Assemblable(r)
  {
    hide OperandsOf, InRange, BranchBase, SwitchesComplete, AllShaped, CodeSize;
    forall i | 0 <= i < |r| && r[i].operand.Target? ensures DistanceFits(r, i) {
      assert c[i].operand == r[i].operand || c[i].operand.Target?;
    }
  }

  lemma WellFormedMeans(c: Code)
    requires WellFormed(c)
    ensures Symbolic(c) && AllShaped(c) && TargetsListed(c) && SwitchesComplete(c) && CodeSize(c) < TWO_TO_THE_31
  {
  }

  lemma SettledDistanceFits(c: Code, i: nat)
    requires WellFormed(c) && Settled(c) && i < |c| && c[i].operand.Target?
    ensures DistanceFits(LaidOut(c), i)
  {
    hide OperandsOf, Pow256, Offset, SwitchesComplete, BranchBase;
    var r := LaidOut(c);
    LaidOutSameButTargets(c);
    var t := c[i].operand.target;
    OffsetBelowSize(c, t);
    BaseBelowSize(c, i);
    BaseSame(c, r, i);
    PowersOf256();
    assert !MustWiden(c, i);
  }

  lemma BaseSame(c: Code, r: Code, i: nat)
    requires SameButTargets(c, r) && i < |c|
    ensures BranchBase(c, i) == BranchBase(r, i)
  {
    hide Offset, SwitchBase;
    SameLayout(c, r, i);
    SameLayout(c, r, i + 1);
  }

  // ---- Main results ----

  /** Import undoes export: decoding the bytes of a settled list recovers it, targets and operands included. */
  lemma DecodeOfEncode(c: Code)
    requires WellFormed(c) && Settled(c)
    ensures Symbolic(c) && Decode(Encode(c)) == Some(c)
  {
    hide Assemble, Assemblable, AllTargetsResolve, Resolved, LaidOut, ParseFrom, WellFormed, Settled;
    WellFormedMeans(c);
    var r := LaidOut(c);
    SettledDistancesFit(c);
    AssemblableMeans(r);
    ParseOfAssembled(r, 0, 0);
    ResolvedOfLaidOut(c);
    assert r[..0] == [];
  }

  /** A resolved target that was read from a one-byte distance is within reach of it. */
  lemma ReadShortDistance(base: nat, t: nat, size: nat)
    requires base <= size && t <= size < TWO_TO_THE_31
    requires t == Wrap32(base + Signed(LittleEndian(t - base, 1)))
    ensures FitsInt8(t - base)
  {
    hide LittleEndian;
    PowersOf256();
  }

  lemma ReadTargetsAreSettled(c: Code, r: Code)
    requires Symbolic(c) && SwitchesComplete(c) && CodeSize(c) < TWO_TO_THE_31
    requires LaidOut(c) == r && forall i :: 0 <= i < |r| ==> TargetRead(r, i)
    ensures Settled(c)
  {
    hide Offset, OperandsOf, SwitchesComplete, Signed, LittleEndian, Wrap32, BranchBase;
    LaidOutSameButTargets(c);
    forall i | 0 <= i < |c| && IsShortBranch(c[i].op)
      ensures !MustWiden(c, i)
    {
      assert TargetRead(r, i);
      BaseSame(c, r, i);
      BaseBelowSize(c, i);
      OffsetBelowSize(c, c[i].operand.target);
      ReadShortDistance(BranchBase(c, i), r[i].operand.target, CodeSize(c));
    }
  }

  lemma ResolvedTargetsAreInstructions(r: Code)
    requires AllTargetsResolve(r)
    ensures TargetsAreInstructions(Resolved(r))
  {
    hide Offset;
  }

  lemma ResolvedIsShaped(r: Code)
    requires AllTargetsResolve(r) && AllShaped(r)
    ensures AllShaped(Resolved(r))
  {
    hide Lookup, OperandsOf, InRange;
  }

  /**
   * Export undoes import: a decodable body decodes to a well-formed list in which no branch needs
   * widening, and encoding that list reproduces the body byte for byte.
   */
  lemma EncodeOfDecode(code: seq<byte>)
    requires |code| < TWO_TO_THE_31 && Decode(code).Some?
    ensures
      var c := Decode(code).value;
      WellFormed(c) && Settled(c) && Relax(c) == c && Encode(c) == code
  {
    hide ParseFrom, AllTargetsResolve, Resolved, LaidOut, SwitchesComplete, TargetsAreInstructions, Assemble, Relax,
      Settled, AllShaped, TargetRead, CodeSize;
    var r := ParseFrom(code, 0, 0, 0, []).value;
    var c := Decode(code).value;
    assert c == Resolved(r);
    AssembleOfParse(code);
    LaidOutOfResolved(r);
    ResolvedSameButTargets(r);
    SameSwitches(c, r);
    ResolvedTargetsAreInstructions(r);
    ResolvedIsShaped(r);
    ReadTargetsAreSettled(c, r);
    RelaxLeavesSettledCode(c);
  }

  lemma {:induction false} WideningKeepsPending(c: Code, d: Code, i: nat)
    requires Widens(c, d) && i <= |c|
    ensures Pending(d, i) == Pending(c, i)
  {
    hide OperandsOf;
    if i > 0 {
      WideningKeepsPending(c, d, i - 1);
    }
  }

  /** Widening keeps a list well formed, as long as the code stays below 2^31 bytes. */
  lemma WideningKeepsWellFormed(c: Code, d: Code)
    requires WellFormed(c) && Widens(c, d) && CodeSize(d) < TWO_TO_THE_31
    ensures WellFormed(d)
  {
    hide Offset, Pending, Shaped;
    WideningKeepsSymbolic(c, d);
    forall i | 0 <= i <= |c| ensures Pending(d, i) == Pending(c, i) {
      WideningKeepsPending(c, d, i);
    }
  }

  /**
   * Export preserves meaning: what it emits for a well-formed list decodes to that list with some short
   * branches in their long form and nothing else changed, and any other widening whose short branches
   * all fit widens at least the same branches.
   */
  lemma {:induction false} ExportPreservesMeaning(c: Code)
    requires WellFormed(c) && CodeSize(Relax(c)) < TWO_TO_THE_31
    ensures Decode(Encode(Relax(c))) == Some(Relax(c)) && Widens(c, Relax(c))
    ensures forall d :: Symbolic(d) && Widens(c, d) && Settled(d) ==> Widens(Relax(c), d)
  {
    RelaxSettles(c);
    WideningKeepsWellFormed(c, Relax(c));
    DecodeOfEncode(Relax(c));
    forall d | Symbolic(d) && Widens(c, d) && Settled(d)
      ensures Widens(Relax(c), d)
    {
      RelaxIsLeast(c, d);
    }
  }
}
