/**
 * Exception clauses (ECMA-335 Partition II, section 25.4.6). A clause names instructions: the end of the
 * try block is exclusive, the end of the handler inclusive, and the list is circular through the
 * sentinel, so position |c| stands both for the end of the code and for what precedes position 0.
 */
module ExceptionRegions {
  import opened Bytes
  import opened Opcodes
  import opened InstructionList
  import opened Disassembly
  import opened ImportExport

  /** The class token of a typed clause, or the filter's first instruction (position or offset). */
  datatype Selector = ClassToken(token: int) | Filter(at: nat)

  /** A clause over the list: positions, where |c| is the sentinel. */
  datatype Clause =
    Clause(flags: nat, tryBegin: nat, tryEnd: nat, handlerBegin: nat, handlerEnd: nat, selector: Selector)

  /** A clause as stored in the method body: offsets and lengths, 32-bit unsigned. */
  datatype FatClause =
    FatClause(flags: nat, tryOffset: int, tryLength: int, handlerOffset: int, handlerLength: int, selector: Selector)

  /** COR_ILEXCEPTION_CLAUSE_FILTER, the lowest bit, is set. */
  predicate HasFilter(flags: nat) {
    flags % 2 == 1
  }

  /** m_pPrev and m_pNext on the circular list of n instructions and the sentinel n. */
  function Before(n: nat, p: nat): (q: nat)
    requires p <= n
    ensures q <= n
  {
    if p == 0 then n else p - 1
  }

  function After(n: nat, p: nat): (q: nat)
    requires p <= n
    ensures q <= n
  {
    if p == n then 0 else p + 1
  }

  lemma AfterBefore(n: nat, p: nat)
    requires p <= n
    ensures After(n, Before(n, p)) == p && Before(n, After(n, p)) == p
  {
  }

  predicate InList(c: Code, x: Clause) {
    && x.tryBegin <= |c| && x.tryEnd <= |c| && x.handlerBegin <= |c| && x.handlerEnd <= |c|
    && (x.selector.Filter? <==> HasFilter(x.flags))
    && (x.selector.Filter? ==> x.selector.at <= |c|)
  }

  /** One clause of ImportEH; None is COR_E_INVALIDPROGRAM. */
  function ImportClause(c: Code, f: FatClause): (x: Option<Clause>)
    requires f.selector.Filter? <==> HasFilter(f.flags)
    ensures x.Some? ==> InList(c, x.value)
  {
    var tb := Lookup(c, Wrap32(f.tryOffset));
    var te := Lookup(c, Wrap32(f.tryOffset + f.tryLength));
    var hb := Lookup(c, Wrap32(f.handlerOffset));
    var he := Lookup(c, Wrap32(f.handlerOffset + f.handlerLength));
    var fl := if f.selector.Filter? then Lookup(c, f.selector.at) else Some(0);
    if tb.None? || te.None? || hb.None? || he.None? || fl.None? then None
    else
      Some(Clause(f.flags, tb.value, te.value, hb.value, Before(|c|, he.value),
        if f.selector.Filter? then Filter(fl.value) else f.selector))
  }

  /** One clause of the table Export writes. */
  function ExportClause(c: Code, x: Clause): (f: FatClause)
    requires InList(c, x)
    ensures f.selector.Filter? <==> HasFilter(f.flags)
  {
    FatClause(x.flags,
      Offset(c, x.tryBegin), Wrap32(Offset(c, x.tryEnd) - Offset(c, x.tryBegin)),
      Offset(c, x.handlerBegin), Wrap32(Offset(c, After(|c|, x.handlerEnd)) - Offset(c, x.handlerBegin)),
      if x.selector.Filter? then Filter(Offset(c, x.selector.at)) else x.selector)
  }

  predicate IsWord(x: int) {
    0 <= x < TWO_TO_THE_32
  }

  lemma Wrap32Difference(a: int, b: int)
    requires IsWord(a) && IsWord(b)
    ensures Wrap32(a + Wrap32(b - a)) == b
  {
  }

  lemma Wrap32DifferenceUnique(a: int, x: int)
    requires IsWord(a) && IsWord(x)
    ensures Wrap32(Wrap32(a + x) - a) == x
  {
  }

  lemma WordIsItself(a: int)
    requires IsWord(a)
    ensures Wrap32(a) == a
  {
  }

  /** Import then export reproduces every clause, whatever its handler end follows. */
  lemma {:induction false} ExportOfImportedClause(c: Code, f: FatClause)
    requires f.selector.Filter? <==> HasFilter(f.flags)
    requires IsWord(f.tryOffset) && IsWord(f.tryLength) && IsWord(f.handlerOffset) && IsWord(f.handlerLength)
    requires ImportClause(c, f).Some?
    ensures ExportClause(c, ImportClause(c, f).value) == f
  {
    hide Lookup, Offset, Wrap32, HasFilter;
    var he := Lookup(c, Wrap32(f.handlerOffset + f.handlerLength)).value;
    AfterBefore(|c|, he);
    WordIsItself(f.tryOffset);
    WordIsItself(f.handlerOffset);
    Wrap32DifferenceUnique(f.tryOffset, f.tryLength);
    Wrap32DifferenceUnique(f.handlerOffset, f.handlerLength);
  }

  /** A clause whose ends can be named by offsets: none of them is a table entry. */
  predicate Nameable(c: Code, x: Clause) {
    && InList(c, x)
    && IsStart(c, x.tryBegin) && IsStart(c, x.tryEnd) && IsStart(c, x.handlerBegin)
    && IsStart(c, After(|c|, x.handlerEnd))
    && (x.selector.Filter? ==> IsStart(c, x.selector.at))
  }

  predicate IsStart(c: Code, p: nat) {
    p <= |c| && (p < |c| ==> c[p].op != CEE_SWITCH_ARG)
  }

  /** Export then import recovers the clause. */
  lemma {:induction false} ImportOfExportedClause(c: Code, x: Clause)
    requires WellFormed(c) && Nameable(c, x)
    ensures ImportClause(c, ExportClause(c, x)) == Some(x)
  {
    hide Lookup, Offset, SwitchesComplete, AllShaped, TargetsAreInstructions, TargetsListed, Wrap32, HasFilter,
      IsWord;
    var hn := After(|c|, x.handlerEnd);
    OffsetIsWord(c, x.tryBegin);
    OffsetIsWord(c, x.tryEnd);
    OffsetIsWord(c, x.handlerBegin);
    OffsetIsWord(c, hn);
    WordIsItself(Offset(c, x.tryBegin));
    WordIsItself(Offset(c, x.handlerBegin));
    Wrap32Difference(Offset(c, x.tryBegin), Offset(c, x.tryEnd));
    Wrap32Difference(Offset(c, x.handlerBegin), Offset(c, hn));
    LookupOfOffset(c, x.tryBegin);
    LookupOfOffset(c, x.tryEnd);
    LookupOfOffset(c, x.handlerBegin);
    LookupOfOffset(c, hn);
    AfterBefore(|c|, x.handlerEnd);
    if x.selector.Filter? {
      LookupOfOffset(c, x.selector.at);
    }
  }

  /** A clause whose ends can be named is imported from f again. */
  predicate Reimports(c: Code, f: FatClause, x: Clause) {
    Nameable(c, x) ==> (f.selector.Filter? <==> HasFilter(f.flags)) && ImportClause(c, f) == Some(x)
  }

  lemma ExportedClauseReimports(c: Code, x: Clause)
    requires WellFormed(c) && InList(c, x)
    ensures Reimports(c, ExportClause(c, x), x)
  {
    hide WellFormed, InList, ExportClause, ImportClause, Nameable, HasFilter;
    if Nameable(c, x) {
      ImportOfExportedClause(c, x);
    }
  }

  lemma OffsetIsWord(c: Code, p: nat)
    requires WellFormed(c) && p <= |c|
    ensures IsWord(Offset(c, p))
  {
    hide Offset;
    OffsetBelowSize(c, p);
  }

  // ---- What the exported numbers cover ----

  /** Byte b of the code belongs to instruction i. */
  predicate ByteOf(c: Code, i: nat, b: int)
    requires i < |c|
  {
    Offset(c, i) <= b < Offset(c, i + 1)
  }

  /** Byte b belongs to an instruction in [lo, hi). */
  ghost predicate ByteIn(c: Code, lo: nat, hi: nat, b: int)
    requires hi <= |c|
  {
    exists i :: lo <= i < hi && ByteOf(c, i, b)
  }

  lemma ByteInLonger(c: Code, lo: nat, hi: nat, b: int)
    requires lo <= hi < |c|
    ensures ByteIn(c, lo, hi + 1, b) <==> ByteIn(c, lo, hi, b) || ByteOf(c, hi, b)
  {
    hide ByteOf;
  }

  /** The bytes in [Offset(lo), Offset(hi)) are exactly those of the instructions in [lo, hi). */
  lemma {:induction false} RangeCovers(c: Code, lo: nat, hi: nat, b: int)
    requires lo <= hi <= |c|
    ensures Offset(c, lo) <= Offset(c, hi)
    ensures Offset(c, lo) <= b < Offset(c, hi) <==> ByteIn(c, lo, hi, b)
    decreases hi
  {
    hide Offset, ByteOf;
    if lo < hi {
      hide ByteIn;
      RangeCovers(c, lo, hi - 1, b);
      ByteInLonger(c, lo, hi - 1, b);
      OffsetGrows(c, hi - 1);
      LastByte(c, hi - 1, b);
    }
  }

  lemma LastByte(c: Code, i: nat, b: int)
    requires i < |c|
    ensures ByteOf(c, i, b) <==> Offset(c, i) <= b < Offset(c, i + 1)
  {
  }

  lemma OffsetGrows(c: Code, i: nat)
    requires i < |c|
    ensures Offset(c, i) <= Offset(c, i + 1)
  {
  }

  /**
   * The exported offset and length pairs cover exactly the bytes of the instructions in
   * [tryBegin, tryEnd) and in [handlerBegin, handlerEnd].
   */
  lemma ClauseCoversItsInstructions(c: Code, x: Clause, b: int)
    requires InList(c, x) && CodeSize(c) < TWO_TO_THE_31
    requires x.tryBegin <= x.tryEnd && x.handlerBegin <= x.handlerEnd < |c|
    ensures
      var f := ExportClause(c, x);
      && (Within(b, f.tryOffset, f.tryLength) <==> ByteIn(c, x.tryBegin, x.tryEnd, b))
      && (Within(b, f.handlerOffset, f.handlerLength) <==> ByteIn(c, x.handlerBegin, x.handlerEnd + 1, b))
  {
    hide Offset, ByteOf, ByteIn;
    RangeCovers(c, x.tryBegin, x.tryEnd, b);
    RangeCovers(c, x.handlerBegin, x.handlerEnd + 1, b);
    OffsetBelowSize(c, x.tryEnd);
    OffsetBelowSize(c, x.handlerEnd + 1);
  }

  /** Both regions are in list order and the handler ends before the end of n instructions. */
  predicate Ordered(x: Clause, n: nat) {
    x.tryBegin <= x.tryEnd && x.handlerBegin <= x.handlerEnd < n
  }

  predicate Within(b: int, offset: int, length: int) {
    offset <= b < offset + length
  }

  /** The stored offsets and lengths are exactly the bytes of the clause's instructions. */
  ghost predicate Covers(c: Code, f: FatClause, x: Clause) {
    && Ordered(x, |c|) && x.tryEnd <= |c|
    && (forall b :: ByteIn(c, x.tryBegin, x.tryEnd, b) <==> Within(b, f.tryOffset, f.tryLength))
    && (forall b :: ByteIn(c, x.handlerBegin, x.handlerEnd + 1, b) <==> Within(b, f.handlerOffset, f.handlerLength))
  }

  lemma ExportedClauseCovers(c: Code, x: Clause)
    requires InList(c, x) && CodeSize(c) < TWO_TO_THE_31 && Ordered(x, |c|)
    ensures Covers(c, ExportClause(c, x), x)
  {
    hide Offset, ByteIn, ExportClause;
    var f := ExportClause(c, x);
    forall b
      ensures ByteIn(c, x.tryBegin, x.tryEnd, b) <==> Within(b, f.tryOffset, f.tryLength)
      ensures ByteIn(c, x.handlerBegin, x.handlerEnd + 1, b) <==> Within(b, f.handlerOffset, f.handlerLength)
    {
      ClauseCoversItsInstructions(c, x, b);
    }
  }

  // ---- Insertion ----

  /** Where the instruction at position p ends up when another one is inserted at position k. */
  function Shifted(k: nat, p: nat): (q: nat) {
    if p < k then p else p + 1
  }

  /** The positions of the original instructions, and of the sentinel, after insertions at the given positions. */
  function ShiftedAll(ks: seq<nat>, p: nat): (q: nat) {
    if ks == [] then p else ShiftedAll(ks[1..], Shifted(ks[0], p))
  }

  /** A clause's instructions keep their identity; only their positions move. */
  function MovedClause(ks: seq<nat>, x: Clause): (y: Clause) {
    Clause(x.flags, ShiftedAll(ks, x.tryBegin), ShiftedAll(ks, x.tryEnd), ShiftedAll(ks, x.handlerBegin),
      ShiftedAll(ks, x.handlerEnd),
      if x.selector.Filter? then Filter(ShiftedAll(ks, x.selector.at)) else x.selector)
  }

  predicate InTry(x: Clause, i: nat) {
    x.tryBegin <= i < x.tryEnd
  }

  predicate InHandler(x: Clause, i: nat) {
    x.handlerBegin <= i <= x.handlerEnd
  }

  lemma {:induction false} ShiftsKeepOrder(ks: seq<nat>, p: nat, q: nat)
    ensures p < q <==> ShiftedAll(ks, p) < ShiftedAll(ks, q)
  {
    if ks != [] {
      ShiftsKeepOrder(ks[1..], Shifted(ks[0], p), Shifted(ks[0], q));
    }
  }

  /** After any insertions, every original instruction is in the same try and handler regions as before. */
  lemma RegionsSurviveInsertion(ks: seq<nat>, x: Clause, i: nat)
    ensures InTry(MovedClause(ks, x), ShiftedAll(ks, i)) <==> InTry(x, i)
    ensures InHandler(MovedClause(ks, x), ShiftedAll(ks, i)) <==> InHandler(x, i)
  {
    hide ShiftedAll;
    ShiftsKeepOrder(ks, i, x.tryBegin);
    ShiftsKeepOrder(ks, i, x.tryEnd);
    ShiftsKeepOrder(ks, i, x.handlerBegin);
    ShiftsKeepOrder(ks, x.handlerEnd, i);
  }
}
