/**
 * Type, parameter, local and return-type signatures (ECMA-335 Partition II, section 23.2): the grammar
 * as trees with their bytes, the parser of clr_helpers.cpp as a function from a position to the position
 * after the type, and the proof that the parser accepts exactly the bytes of the trees.
 *
 * The parser has no default rejection: a byte it does not know counts as a one-byte type, and numbers
 * need not use their shortest form. The trees cover all of that.
 */
module Signatures {
  import opened Bytes
  import opened CompressedNumbers

  const VOID: byte := 0x01
  const PTR: byte := 0x0F
  const BYREF: byte := 0x10
  const VALUETYPE: byte := 0x11
  const CLASS: byte := 0x12
  const VAR: byte := 0x13
  const ARRAY: byte := 0x14
  const GENERICINST: byte := 0x15
  const TYPEDBYREF: byte := 0x16
  const FNPTR: byte := 0x1B
  const SZARRAY: byte := 0x1D
  const MVAR: byte := 0x1E
  const CMOD_REQD: byte := 0x1F
  const CMOD_OPT: byte := 0x20
  const SENTINEL: byte := 0x41

  datatype SigType =
    | Plain(code: byte)
    | Named(valueType: bool, index: Number)
    | Vector(element: SigType)
    | Instance(valueType: bool, index: Number, count: Number, args: seq<SigType>)
    | Variable(ofMethod: bool, number: Number)

  /** Bytes that start something other than a one-byte type, or that the parser rejects. */
  predicate IsSpecial(x: byte) {
    x in [PTR, VALUETYPE, CLASS, VAR, ARRAY, GENERICINST, FNPTR, SZARRAY, MVAR]
  }

  predicate IsModifier(x: byte) {
    x == CMOD_OPT || x == CMOD_REQD
  }

  function NamedCode(valueType: bool): (x: byte) {
    if valueType then VALUETYPE else CLASS
  }

  /** The trees whose bytes the parser accepts. */
  predicate Accepted(t: SigType) {
    match t
    case Plain(x) => !IsSpecial(x)
    case Named(_, n) => IsNumber(n)
    case Vector(e) => Accepted(e) && !(e.Plain? && IsModifier(e.code))
    case Instance(_, n, k, args) =>
      IsNumber(n) && IsNumber(k) && k.value == |args| && forall i :: 0 <= i < |args| ==> Accepted(args[i])
    case Variable(_, n) => IsNumber(n)
  }

  predicate AllAccepted(args: seq<SigType>) {
    forall i :: 0 <= i < |args| ==> Accepted(args[i])
  }

  function TypeBytes(t: SigType): (b: seq<byte>)
    requires Accepted(t)
    ensures |b| > 0
    decreases t, 1
  {
    match t
    case Plain(x) => [x]
    case Named(v, n) => [NamedCode(v)] + NumberBytes(n)
    case Vector(e) => [SZARRAY] + TypeBytes(e)
    case Instance(v, n, k, args) =>
      [GENERICINST] + ([NamedCode(v)] + (NumberBytes(n) + (NumberBytes(k) + TypesBytes(args))))
    case Variable(m, n) => [if m then MVAR else VAR] + NumberBytes(n)
  }

  /** Types one after the other. */
  function TypesBytes(args: seq<SigType>): (b: seq<byte>)
    requires AllAccepted(args)
    decreases args, 0
  {
    if args == [] then [] else TypeBytes(args[0]) + TypesBytes(args[1..])
  }

  // ---- The parser, as functions on positions ----

  /** Position after the type at cur; None where ParseType fails. */
  function TypeEnd(b: seq<byte>, cur: nat): (r: Option<nat>)
    ensures r.Some? ==> cur < r.value <= |b|
    decreases |b| - cur, 0
  {
    if cur >= |b| then None
    else if b[cur] in [PTR, FNPTR, ARRAY] then None
    else if b[cur] in [CLASS, VALUETYPE, VAR, MVAR] then NumberEnd(b, cur + 1)
    else if b[cur] == SZARRAY then
      if cur + 1 >= |b| || IsModifier(b[cur + 1]) then None else TypeEnd(b, cur + 1)
    else if b[cur] == GENERICINST then
      if cur + 1 >= |b| || b[cur + 1] !in [CLASS, VALUETYPE] then None
      else
        match NumberEnd(b, cur + 2)
        case None => None
        case Some(afterIndex) =>
          match ReadNumber(b, afterIndex)
          case None => None
          case Some((count, next)) => TypesEnd(b, next, count)
    else Some(cur + 1)
  }

  function NumberEnd(b: seq<byte>, cur: nat): (r: Option<nat>)
    ensures r.Some? ==> cur < r.value <= |b|
  {
    match ReadNumber(b, cur)
    case None => None
    case Some((_, next)) => Some(next)
  }

  /** Position after count types in a row. */
  function TypesEnd(b: seq<byte>, cur: nat, count: nat): (r: Option<nat>)
    requires cur <= |b|
    ensures r.Some? ==> cur <= r.value <= |b|
    decreases |b| - cur, 1, count
  {
    if count == 0 then Some(cur)
    else
      match TypeEnd(b, cur)
      case None => None
      case Some(next) => TypesEnd(b, next, count - 1)
  }

  // ---- Completeness: the bytes of a tree are parsed to their end ----

  lemma NumberEndOf(b: seq<byte>, cur: nat, n: Number)
    requires IsNumber(n) && At(b, cur, NumberBytes(n))
    ensures NumberEnd(b, cur) == Some(cur + n.width)
  {
    ReadOfWritten(b, cur, n);
  }

  lemma {:induction false} TypeParses(b: seq<byte>, cur: nat, t: SigType)
    requires Accepted(t) && At(b, cur, TypeBytes(t))
    ensures TypeEnd(b, cur) == Some(cur + |TypeBytes(t)|)
    decreases t, 1
  {
    hide At, NumberEnd, NumberBytes, ReadNumber;
    match t
    case Plain(x) =>
      AtByte(b, cur, x);
    case Named(v, n) =>
      AtByte(b, cur, NamedCode(v));
      AtConcat(b, cur, [NamedCode(v)], NumberBytes(n));
      NumberEndOf(b, cur + 1, n);
    case Variable(m, n) =>
      var x: byte := if m then MVAR else VAR;
      AtByte(b, cur, x);
      AtConcat(b, cur, [x], NumberBytes(n));
      NumberEndOf(b, cur + 1, n);
    case Vector(e) =>
      AtByte(b, cur, SZARRAY);
      AtConcat(b, cur, [SZARRAY], TypeBytes(e));
      FirstByte(b, cur + 1, e);
      TypeParses(b, cur + 1, e);
    case Instance(v, n, k, args) =>
      InstanceParses(b, cur, t);
  }

  /** No other tree starts with a modifier, and none is empty. */
  lemma FirstByte(b: seq<byte>, cur: nat, t: SigType)
    requires Accepted(t) && At(b, cur, TypeBytes(t))
    ensures cur < |b| && b[cur] == TypeBytes(t)[0]
    ensures !t.Plain? ==> IsSpecial(b[cur]) && b[cur] !in [PTR, FNPTR, ARRAY]
    ensures t.Plain? ==> b[cur] == t.code
  {
    hide NumberBytes;
    AtIndex(b, cur, TypeBytes(t), 0);
  }

  lemma {:induction false} InstanceParses(b: seq<byte>, cur: nat, t: SigType)
    requires Accepted(t) && t.Instance? && At(b, cur, TypeBytes(t))
    ensures TypeEnd(b, cur) == Some(cur + |TypeBytes(t)|)
    decreases t, 0
  {
    hide At, NumberBytes, ReadNumber, IsModifier, TypesEnd, TypesBytes;
    var n, k, args := t.index, t.count, t.args;
    var rest := NumberBytes(k) + TypesBytes(args);
    var x := NamedCode(t.valueType);
    AtConcat(b, cur, [GENERICINST], [x] + (NumberBytes(n) + rest));
    AtByte(b, cur, GENERICINST);
    AtConcat(b, cur + 1, [x], NumberBytes(n) + rest);
    AtByte(b, cur + 1, x);
    AtConcat(b, cur + 2, NumberBytes(n), rest);
    NumberEndOf(b, cur + 2, n);
    AtConcat(b, cur + 2 + n.width, NumberBytes(k), TypesBytes(args));
    ReadOfWritten(b, cur + 2 + n.width, k);
    AtLength(b, cur + 2 + n.width + k.width, TypesBytes(args));
    TypesParse(b, cur + 2 + n.width + k.width, args);
  }

  lemma AtLength(b: seq<byte>, cur: nat, p: seq<byte>)
    requires At(b, cur, p)
    ensures cur + |p| <= |b|
  {
  }

  lemma {:induction false} TypesParse(b: seq<byte>, cur: nat, args: seq<SigType>)
    requires AllAccepted(args) && cur <= |b| && At(b, cur, TypesBytes(args))
    ensures TypesEnd(b, cur, |args|) == Some(cur + |TypesBytes(args)|)
    decreases args, 0
  {
    hide At, TypeEnd, TypeBytes;
    if args != [] {
      AtConcat(b, cur, TypeBytes(args[0]), TypesBytes(args[1..]));
      TypeParses(b, cur, args[0]);
      TypesParse(b, cur + |TypeBytes(args[0])|, args[1..]);
    }
  }

  // ---- Soundness: whatever is parsed is the bytes of a tree ----

  lemma NumberEndMeans(b: seq<byte>, cur: nat) returns (n: Number)
    requires NumberEnd(b, cur).Some?
    ensures IsNumber(n) && At(b, cur, NumberBytes(n)) && NumberEnd(b, cur) == Some(cur + n.width)
  {
    n := WrittenOfRead(b, cur);
  }

  lemma {:induction false} ParsedType(b: seq<byte>, cur: nat) returns (t: SigType)
    requires TypeEnd(b, cur).Some?
    ensures Accepted(t) && At(b, cur, TypeBytes(t)) && TypeEnd(b, cur) == Some(cur + |TypeBytes(t)|)
    decreases |b| - cur, 1
  {
    hide At, NumberBytes, ReadNumber, NumberEnd, TypesEnd, TypesBytes;
    var x := b[cur];
    AtByte(b, cur, x);
    if x == CLASS || x == VALUETYPE {
      var n := NumberEndMeans(b, cur + 1);
      AtConcat(b, cur, [x], NumberBytes(n));
      t := Named(x == VALUETYPE, n);
    } else if x == VAR || x == MVAR {
      var n := NumberEndMeans(b, cur + 1);
      AtConcat(b, cur, [x], NumberBytes(n));
      t := Variable(x == MVAR, n);
    } else if x == SZARRAY {
      var e := ParsedType(b, cur + 1);
      FirstByte(b, cur + 1, e);
      AtConcat(b, cur, [x], TypeBytes(e));
      t := Vector(e);
    } else if x == GENERICINST {
      t := ParsedInstance(b, cur);
    } else {
      t := Plain(x);
    }
  }

  lemma {:induction false} ParsedInstance(b: seq<byte>, cur: nat) returns (t: SigType)
    requires TypeEnd(b, cur).Some? && b[cur] == GENERICINST
    ensures Accepted(t) && At(b, cur, TypeBytes(t)) && TypeEnd(b, cur) == Some(cur + |TypeBytes(t)|)
    decreases |b| - cur, 0
  {
    hide At, NumberBytes, ReadNumber, TypesEnd, TypesBytes;
    var x := b[cur + 1];
    var n := NumberEndMeans(b, cur + 2);
    var afterIndex := cur + 2 + n.width;
    var k := WrittenOfRead(b, afterIndex);
    var args := ParsedTypes(b, afterIndex + k.width, k.value);
    t := Instance(x == VALUETYPE, n, k, args);
    var rest := NumberBytes(k) + TypesBytes(args);
    AtConcat(b, afterIndex, NumberBytes(k), TypesBytes(args));
    AtConcat(b, cur + 2, NumberBytes(n), rest);
    AtByte(b, cur + 1, x);
    AtConcat(b, cur + 1, [x], NumberBytes(n) + rest);
    AtByte(b, cur, GENERICINST);
    AtConcat(b, cur, [GENERICINST], [x] + (NumberBytes(n) + rest));
  }

  lemma {:induction false} ParsedTypes(b: seq<byte>, cur: nat, count: nat) returns (args: seq<SigType>)
    requires cur <= |b| && TypesEnd(b, cur, count).Some?
    ensures |args| == count && AllAccepted(args)
    ensures At(b, cur, TypesBytes(args)) && TypesEnd(b, cur, count) == Some(cur + |TypesBytes(args)|)
    decreases |b| - cur, 2, count
  {
    hide At, TypeEnd, TypeBytes;
    if count == 0 {
      args := [];
      AtNothing(b, cur);
    } else {
      var t := ParsedType(b, cur);
      var rest := ParsedTypes(b, cur + |TypeBytes(t)|, count - 1);
      args := [t] + rest;
      assert args[1..] == rest;
      AtConcat(b, cur, TypeBytes(t), TypesBytes(rest));
    }
  }

  lemma AtNothing(b: seq<byte>, cur: nat)
    requires cur <= |b|
    ensures At(b, cur, [])
  {
  }
}
