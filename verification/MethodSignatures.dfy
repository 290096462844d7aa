/**
 * Whole method and local-variable signatures: their trees and bytes, what the parsers make of a blob
 * (the segments of the return value, parameters and locals), and the proof that parsing a blob yields
 * the segments of a signature exactly when the blob starts with that signature's bytes.
 */
module MethodSignatures {
  import opened Bytes
  import opened CompressedNumbers
  import opened Signatures

  /** A slice of the blob: TypeSignature's offset and length. */
  datatype Segment = Segment(offset: nat, length: nat)

  // ---- Parameters, locals and return types ----

  /** A parameter or local: an optional BYREF, an optional PTR, and a type. */
  datatype Local = Local(byRef: bool, pointer: bool, ofType: SigType)

  predicate StartsWithout(t: SigType, codes: set<byte>) {
    t.Plain? ==> t.code !in codes
  }

  predicate LocalAccepted(l: Local) {
    && Accepted(l.ofType)
    && (!l.byRef && !l.pointer ==> StartsWithout(l.ofType, {CMOD_OPT, CMOD_REQD, TYPEDBYREF, BYREF}))
  }

  function Prefix(present: bool, x: byte): (b: seq<byte>) {
    if present then [x] else []
  }

  function LocalBytes(l: Local): (b: seq<byte>)
    requires LocalAccepted(l)
    ensures |b| > 0
  {
    Prefix(l.byRef, BYREF) + (Prefix(l.pointer, PTR) + TypeBytes(l.ofType))
  }

  /** Position after a parameter or local; None where ParseParamOrLocal fails. */
  function LocalEnd(b: seq<byte>, cur: nat): (r: Option<nat>)
    ensures r.Some? ==> cur < r.value <= |b|
  {
    if cur >= |b| || IsModifier(b[cur]) || b[cur] == TYPEDBYREF then None
    else
      var c := if b[cur] == BYREF then cur + 1 else cur;
      if c >= |b| then None
      else TypeEnd(b, if b[c] == PTR then c + 1 else c)
  }

  datatype Ret = NoValue | Returned(byRef: bool, ofType: SigType)

  predicate RetAccepted(r: Ret) {
    r.Returned? ==>
      && Accepted(r.ofType)
      && (!r.byRef ==> StartsWithout(r.ofType, {CMOD_OPT, CMOD_REQD, TYPEDBYREF, BYREF, VOID}))
  }

  function RetBytes(r: Ret): (b: seq<byte>)
    requires RetAccepted(r)
    ensures |b| > 0
  {
    if r.NoValue? then [VOID] else Prefix(r.byRef, BYREF) + TypeBytes(r.ofType)
  }

  /** Position after a return type; None where ParseRetType fails. */
  function RetEnd(b: seq<byte>, cur: nat): (r: Option<nat>)
    ensures r.Some? ==> cur < r.value <= |b|
  {
    if cur >= |b| || IsModifier(b[cur]) || b[cur] == TYPEDBYREF then None
    else if b[cur] == VOID then Some(cur + 1)
    else TypeEnd(b, if b[cur] == BYREF then cur + 1 else cur)
  }

  lemma PrefixAt(b: seq<byte>, cur: nat, present: bool, x: byte, rest: seq<byte>)
    ensures At(b, cur, Prefix(present, x) + rest) <==>
      if present then cur < |b| && b[cur] == x && At(b, cur + 1, rest) else At(b, cur, rest)
  {
    hide At;
    if present {
      AtConcat(b, cur, [x], rest);
      AtByte(b, cur, x);
    } else {
      assert Prefix(present, x) + rest == rest;
    }
  }

  lemma LocalParses(b: seq<byte>, cur: nat, l: Local)
    requires LocalAccepted(l) && At(b, cur, LocalBytes(l))
    ensures LocalEnd(b, cur) == Some(cur + |LocalBytes(l)|)
  {
    hide At, TypeEnd, TypeBytes;
    var rest := Prefix(l.pointer, PTR) + TypeBytes(l.ofType);
    PrefixAt(b, cur, l.byRef, BYREF, rest);
    var c := if l.byRef then cur + 1 else cur;
    PrefixAt(b, c, l.pointer, PTR, TypeBytes(l.ofType));
    var d := if l.pointer then c + 1 else c;
    FirstByte(b, d, l.ofType);
    TypeParses(b, d, l.ofType);
  }

  lemma ParsedLocal(b: seq<byte>, cur: nat) returns (l: Local)
    requires LocalEnd(b, cur).Some?
    ensures LocalAccepted(l) && At(b, cur, LocalBytes(l)) && LocalEnd(b, cur) == Some(cur + |LocalBytes(l)|)
  {
    hide At, TypeEnd, Accepted, TypeBytes;
    var byRef := b[cur] == BYREF;
    var c := if byRef then cur + 1 else cur;
    var pointer := b[c] == PTR;
    var d := if pointer then c + 1 else c;
    var t := ParsedType(b, d);
    FirstByte(b, d, t);
    l := Local(byRef, pointer, t);
    PrefixAt(b, c, pointer, PTR, TypeBytes(t));
    PrefixAt(b, cur, byRef, BYREF, Prefix(pointer, PTR) + TypeBytes(t));
  }

  lemma RetParses(b: seq<byte>, cur: nat, r: Ret)
    requires RetAccepted(r) && At(b, cur, RetBytes(r))
    ensures RetEnd(b, cur) == Some(cur + |RetBytes(r)|)
  {
    hide At, TypeEnd, Accepted, TypeBytes;
    if r.NoValue? {
      AtByte(b, cur, VOID);
    } else {
      PrefixAt(b, cur, r.byRef, BYREF, TypeBytes(r.ofType));
      var d := if r.byRef then cur + 1 else cur;
      FirstByte(b, d, r.ofType);
      TypeParses(b, d, r.ofType);
    }
  }

  lemma ParsedRet(b: seq<byte>, cur: nat) returns (r: Ret)
    requires RetEnd(b, cur).Some?
    ensures RetAccepted(r) && At(b, cur, RetBytes(r)) && RetEnd(b, cur) == Some(cur + |RetBytes(r)|)
  {
    hide At, TypeEnd, Accepted, TypeBytes;
    if b[cur] == VOID {
      r := NoValue;
      AtByte(b, cur, VOID);
    } else {
      var byRef := b[cur] == BYREF;
      var d := if byRef then cur + 1 else cur;
      var t := ParsedType(b, d);
      FirstByte(b, d, t);
      r := Returned(byRef, t);
      PrefixAt(b, cur, byRef, BYREF, TypeBytes(t));
    }
  }

  // ---- Local-variable signatures ----

  const LOCAL_SIG: byte := 0x07

  predicate LocalsAccepted(locals: seq<Local>) {
    forall i :: 0 <= i < |locals| ==> LocalAccepted(locals[i])
  }

  function LocalsBytes(locals: seq<Local>): (b: seq<byte>)
    requires LocalsAccepted(locals)
  {
    if locals == [] then [] else LocalBytes(locals[0]) + LocalsBytes(locals[1..])
  }

  function LocalSigBytes(count: Number, locals: seq<Local>): (b: seq<byte>)
    requires IsNumber(count) && count.value == |locals| && LocalsAccepted(locals)
  {
    [LOCAL_SIG] + (NumberBytes(count) + LocalsBytes(locals))
  }

  /** The slices of locals laid out from position at. */
  function LocalSegments(locals: seq<Local>, at: nat): (s: seq<Segment>)
    requires LocalsAccepted(locals)
    ensures |s| == |locals|
  {
    if locals == [] then []
    else
      var n := |LocalBytes(locals[0])|;
      [Segment(at, n)] + LocalSegments(locals[1..], at + n)
  }

  /** The parsing loop of FunctionLocalSignature. */
  function ReadLocals(b: seq<byte>, cur: nat, left: nat): (r: Option<seq<Segment>>)
    decreases left
  {
    if left == 0 then Some([])
    else
      match LocalEnd(b, cur)
      case None => None
      case Some(next) =>
        match ReadLocals(b, next, left - 1)
        case None => None
        case Some(rest) => Some([Segment(cur, next - cur)] + rest)
  }

  /** FunctionLocalSignature::TryParse: the segments of the locals. */
  function ReadLocalSig(b: seq<byte>): (r: Option<seq<Segment>>) {
    if |b| == 0 || b[0] != LOCAL_SIG then None
    else
      match ReadNumber(b, 1)
      case None => None
      case Some((count, cur)) => ReadLocals(b, cur, count)
  }

  lemma {:induction false} LocalsParse(b: seq<byte>, cur: nat, locals: seq<Local>)
    requires LocalsAccepted(locals) && At(b, cur, LocalsBytes(locals))
    ensures ReadLocals(b, cur, |locals|) == Some(LocalSegments(locals, cur))
    decreases |locals|
  {
    hide At, LocalEnd, LocalAccepted, LocalBytes;
    if locals != [] {
      AtConcat(b, cur, LocalBytes(locals[0]), LocalsBytes(locals[1..]));
      LocalParses(b, cur, locals[0]);
      LocalsParse(b, cur + |LocalBytes(locals[0])|, locals[1..]);
    }
  }

  lemma {:induction false} ParsedLocals(b: seq<byte>, cur: nat, left: nat) returns (locals: seq<Local>)
    requires cur <= |b| && ReadLocals(b, cur, left).Some?
    ensures LocalsAccepted(locals) && |locals| == left && At(b, cur, LocalsBytes(locals))
    ensures ReadLocals(b, cur, left) == Some(LocalSegments(locals, cur))
    decreases left
  {
    hide At, LocalEnd, LocalAccepted, LocalBytes;
    if left == 0 {
      locals := [];
      AtNothing(b, cur);
    } else {
      var l := ParsedLocal(b, cur);
      var rest := ParsedLocals(b, cur + |LocalBytes(l)|, left - 1);
      locals := [l] + rest;
      assert locals[1..] == rest;
      AtConcat(b, cur, LocalBytes(l), LocalsBytes(rest));
    }
  }

  /** Parse of print: a blob that starts with a local signature parses to the segments of its locals. */
  lemma LocalSigParses(b: seq<byte>, count: Number, locals: seq<Local>)
    requires IsNumber(count) && count.value == |locals| && LocalsAccepted(locals)
    requires At(b, 0, LocalSigBytes(count, locals))
    ensures ReadLocalSig(b) == Some(LocalSegments(locals, 1 + count.width))
  {
    hide At, ReadLocals, LocalsBytes, NumberBytes, ReadNumber, LocalsAccepted, LocalSegments;
    AtConcat(b, 0, [LOCAL_SIG], NumberBytes(count) + LocalsBytes(locals));
    AtByte(b, 0, LOCAL_SIG);
    AtConcat(b, 1, NumberBytes(count), LocalsBytes(locals));
    ReadOfWritten(b, 1, count);
    LocalsParse(b, 1 + count.width, locals);
  }

  /** A blob that parses starts with the bytes of a local signature with those segments. */
  lemma {:induction false} ParsedLocalSig(b: seq<byte>) returns (count: Number, locals: seq<Local>)
    requires ReadLocalSig(b).Some?
    ensures IsNumber(count) && count.value == |locals| && LocalsAccepted(locals)
    ensures At(b, 0, LocalSigBytes(count, locals))
    ensures ReadLocalSig(b) == Some(LocalSegments(locals, 1 + count.width))
  {
    hide At, ReadLocals, LocalsBytes, NumberBytes, ReadNumber, LocalsAccepted, LocalSegments;
    AtByte(b, 0, LOCAL_SIG);
    count := WrittenOfRead(b, 1);
    locals := ParsedLocals(b, 1 + count.width, count.value);
    AtConcat(b, 1, NumberBytes(count), LocalsBytes(locals));
    AtConcat(b, 0, [LOCAL_SIG], NumberBytes(count) + LocalsBytes(locals));
  }

  /** Segment i holds exactly the bytes of local i, and the segments follow one another without gaps. */
  lemma {:induction false} SegmentsHoldLocals(b: seq<byte>, cur: nat, locals: seq<Local>, i: nat)
    requires LocalsAccepted(locals) && At(b, cur, LocalsBytes(locals)) && i < |locals|
    ensures
      var s := LocalSegments(locals, cur);
      && At(b, s[i].offset, LocalBytes(locals[i])) && s[i].length == |LocalBytes(locals[i])|
      && (i == 0 ==> s[i].offset == cur)
      && (i > 0 ==> s[i].offset == s[i - 1].offset + s[i - 1].length)
      && (i == |locals| - 1 ==> s[i].offset + s[i].length == cur + |LocalsBytes(locals)|)
    decreases |locals|
  {
    hide At, LocalAccepted, LocalBytes;
    AtConcat(b, cur, LocalBytes(locals[0]), LocalsBytes(locals[1..]));
    if i > 0 {
      SegmentsHoldLocals(b, cur + |LocalBytes(locals[0])|, locals[1..], i - 1);
    }
  }

  // ---- Method signatures ----

  /** IMAGE_CEE_CS_CALLCONV_GENERIC. */
  predicate IsGeneric(callConv: byte) {
    callConv / 0x10 % 2 == 1
  }

  /** A method signature; sentinel is the parameter a SENTINEL byte precedes, or |params| for none. */
  datatype MethodSig =
    MethodSig(callConv: byte, typeArgs: Option<Number>, count: Number, ret: Ret, params: seq<Local>, sentinel: nat)

  predicate ParamAccepted(l: Local, afterSentinel: bool) {
    && LocalAccepted(l)
    && (!l.byRef && !l.pointer && !afterSentinel ==> StartsWithout(l.ofType, {SENTINEL}))
  }

  predicate ParamsAccepted(params: seq<Local>, sentinel: nat) {
    forall i :: 0 <= i < |params| ==> ParamAccepted(params[i], i == sentinel)
  }

  predicate MethodAccepted(m: MethodSig) {
    && (m.typeArgs.Some? <==> IsGeneric(m.callConv))
    && (m.typeArgs.Some? ==> IsNumber(m.typeArgs.value))
    && IsNumber(m.count) && m.count.value == |m.params| && m.sentinel <= |m.params|
    && RetAccepted(m.ret) && ParamsAccepted(m.params, m.sentinel)
  }

  /** The parameters from i on, with the sentinel in its place. */
  function ParamsBytes(params: seq<Local>, sentinel: nat, i: nat): (b: seq<byte>)
    requires i <= |params| && ParamsAccepted(params, sentinel)
    decreases |params| - i
  {
    if i == |params| then []
    else Prefix(i == sentinel, SENTINEL) + (LocalBytes(params[i]) + ParamsBytes(params, sentinel, i + 1))
  }

  function TypeArgsBytes(n: Option<Number>): (b: seq<byte>)
    requires n.Some? ==> IsNumber(n.value)
  {
    if n.Some? then NumberBytes(n.value) else []
  }

  function MethodBytes(m: MethodSig): (b: seq<byte>)
    requires MethodAccepted(m)
  {
    [m.callConv] + (TypeArgsBytes(m.typeArgs) + (NumberBytes(m.count) +
      (RetBytes(m.ret) + ParamsBytes(m.params, m.sentinel, 0))))
  }

  function ParamSegments(params: seq<Local>, sentinel: nat, i: nat, at: nat): (s: seq<Segment>)
    requires i <= |params| && ParamsAccepted(params, sentinel)
    ensures |s| == |params| - i
    decreases |params| - i
  {
    if i == |params| then []
    else
      var start := if i == sentinel then at + 1 else at;
      var n := |LocalBytes(params[i])|;
      [Segment(start, n)] + ParamSegments(params, sentinel, i + 1, start + n)
  }

  /** What TryParse of a method signature fills in. */
  datatype MethodShape = MethodShape(typeArgs: nat, argCount: nat, ret: Segment, params: seq<Segment>)

  function ShapeOf(m: MethodSig): (s: MethodShape)
    requires MethodAccepted(m)
  {
    var retAt := 1 + |TypeArgsBytes(m.typeArgs)| + m.count.width;
    var n := |RetBytes(m.ret)|;
    MethodShape(if m.typeArgs.Some? then m.typeArgs.value.value else 0, m.count.value, Segment(retAt, n),
      ParamSegments(m.params, m.sentinel, 0, retAt + n))
  }

  /** The parameter loop; seen tells whether the sentinel has gone by. */
  function ReadParams(b: seq<byte>, cur: nat, left: nat, seen: bool): (r: Option<seq<Segment>>)
    decreases left
  {
    if left == 0 then Some([])
    else if cur >= |b| || (b[cur] == SENTINEL && seen) then None
    else
      var start := if b[cur] == SENTINEL then cur + 1 else cur;
      match LocalEnd(b, start)
      case None => None
      case Some(next) =>
        match ReadParams(b, next, left - 1, seen || b[cur] == SENTINEL)
        case None => None
        case Some(rest) => Some([Segment(start, next - start)] + rest)
  }

  /** FunctionMethodSignature::TryParse. */
  function ReadMethod(b: seq<byte>): (r: Option<MethodShape>) {
    if |b| == 0 then None
    else
      var generic := if IsGeneric(b[0]) then ReadNumber(b, 1) else Some((0, 1));
      if generic.None? then None
      else
        match ReadNumber(b, generic.value.1)
        case None => None
        case Some((count, retAt)) =>
          match RetEnd(b, retAt)
          case None => None
          case Some(cur) =>
            match ReadParams(b, cur, count, false)
            case None => None
            case Some(params) =>
              Some(MethodShape(generic.value.0, count, Segment(retAt, cur - retAt), params))
  }

  lemma ParamParses(b: seq<byte>, cur: nat, l: Local, afterSentinel: bool)
    requires ParamAccepted(l, afterSentinel) && At(b, cur, LocalBytes(l))
    ensures cur < |b| && LocalEnd(b, cur) == Some(cur + |LocalBytes(l)|)
    ensures !afterSentinel ==> b[cur] != SENTINEL
  {
    hide At, Accepted, TypeBytes, LocalEnd;
    LocalParses(b, cur, l);
    PrefixAt(b, cur, l.byRef, BYREF, Prefix(l.pointer, PTR) + TypeBytes(l.ofType));
    if !l.byRef {
      PrefixAt(b, cur, l.pointer, PTR, TypeBytes(l.ofType));
      if !l.pointer {
        FirstByte(b, cur, l.ofType);
      }
    }
  }

  lemma {:induction false} ParamsParse(b: seq<byte>, cur: nat, params: seq<Local>, sentinel: nat, i: nat)
    requires i <= |params| && ParamsAccepted(params, sentinel) && At(b, cur, ParamsBytes(params, sentinel, i))
    ensures ReadParams(b, cur, |params| - i, sentinel < i) == Some(ParamSegments(params, sentinel, i, cur))
    decreases |params| - i
  {
    hide At, LocalEnd, ParamAccepted, LocalBytes;
    if i < |params| {
      var l, rest := params[i], ParamsBytes(params, sentinel, i + 1);
      assert ParamAccepted(l, i == sentinel);
      ParamIsLocal(l, i == sentinel);
      PrefixAt(b, cur, i == sentinel, SENTINEL, LocalBytes(l) + rest);
      var start := if i == sentinel then cur + 1 else cur;
      AtConcat(b, start, LocalBytes(l), rest);
      ParamParses(b, start, l, i == sentinel);
      ParamsParse(b, start + |LocalBytes(l)|, params, sentinel, i + 1);
    }
  }

  lemma ParamIsLocal(l: Local, afterSentinel: bool)
    requires ParamAccepted(l, afterSentinel)
    ensures LocalAccepted(l)
  {
  }

  /** Parse of print for method signatures. */
  lemma {:induction false} MethodParses(b: seq<byte>, m: MethodSig)
    requires MethodAccepted(m) && At(b, 0, MethodBytes(m))
    ensures ReadMethod(b) == Some(ShapeOf(m))
  {
    hide At, ReadParams, ParamsBytes, NumberBytes, ReadNumber, RetEnd, RetBytes, ParamsAccepted, RetAccepted,
      ParamSegments;
    var params := ParamsBytes(m.params, m.sentinel, 0);
    var afterCount := RetBytes(m.ret) + params;
    var afterArgs := NumberBytes(m.count) + afterCount;
    AtConcat(b, 0, [m.callConv], TypeArgsBytes(m.typeArgs) + afterArgs);
    AtByte(b, 0, m.callConv);
    AtConcat(b, 1, TypeArgsBytes(m.typeArgs), afterArgs);
    if m.typeArgs.Some? {
      ReadOfWritten(b, 1, m.typeArgs.value);
    }
    var at := 1 + |TypeArgsBytes(m.typeArgs)|;
    AtConcat(b, at, NumberBytes(m.count), afterCount);
    ReadOfWritten(b, at, m.count);
    AtConcat(b, at + m.count.width, RetBytes(m.ret), params);
    RetParses(b, at + m.count.width, m.ret);
    ParamsParse(b, at + m.count.width + |RetBytes(m.ret)|, m.params, m.sentinel, 0);
  }

  /** Position i of n parameters is the sentinel t exactly when position i + 1 behind one more is s. */
  predicate SameSentinel(n: nat, s: nat, t: nat) {
    s == t + 1 || (s == 0 && t >= n)
  }

  lemma ParamsStep(params: seq<Local>, sentinel: nat, i: nat, at: nat)
    requires i < |params| && ParamsAccepted(params, sentinel)
    ensures LocalAccepted(params[i])
    ensures ParamsBytes(params, sentinel, i) ==
      Prefix(i == sentinel, SENTINEL) + (LocalBytes(params[i]) + ParamsBytes(params, sentinel, i + 1))
    ensures
      var start := if i == sentinel then at + 1 else at;
      var n := |LocalBytes(params[i])|;
      ParamSegments(params, sentinel, i, at) == [Segment(start, n)] + ParamSegments(params, sentinel, i + 1, start + n)
  {
    hide LocalAccepted, LocalBytes;
    assert ParamAccepted(params[i], i == sentinel);
  }

  lemma {:induction false} ShiftParams(l: Local, p: seq<Local>, s: nat, t: nat, i: nat, at: nat)
    requires i <= |p| && ParamsAccepted([l] + p, s) && ParamsAccepted(p, t) && SameSentinel(|p|, s, t)
    ensures ParamsBytes([l] + p, s, i + 1) == ParamsBytes(p, t, i)
    ensures ParamSegments([l] + p, s, i + 1, at) == ParamSegments(p, t, i, at)
    decreases |p| - i
  {
    if i == |p| {
      return;
    } else {
      hide ParamsAccepted, LocalAccepted, LocalBytes, ParamsBytes, ParamSegments;
      assert ([l] + p)[i + 1] == p[i];
      ParamsStep(p, t, i, at);
      ParamsStep([l] + p, s, i + 1, at);
      ShiftParams(l, p, s, t, i + 1, (if i == t then at + 1 else at) + |LocalBytes(p[i])|);
    }
  }

  lemma ParamsAcceptedCons(l: Local, p: seq<Local>, s: nat, t: nat)
    requires ParamAccepted(l, s == 0) && ParamsAccepted(p, t) && SameSentinel(|p|, s, t)
    ensures ParamsAccepted([l] + p, s)
  {
    hide ParamAccepted;
    forall i | 0 <= i < |p| + 1 ensures ParamAccepted(([l] + p)[i], i == s) {
      if i > 0 {
        assert ([l] + p)[i] == p[i - 1];
        assert ParamAccepted(p[i - 1], i - 1 == t);
      }
    }
  }

  lemma ParsedParam(b: seq<byte>, start: nat, afterSentinel: bool) returns (l: Local)
    requires LocalEnd(b, start).Some? && (!afterSentinel ==> b[start] != SENTINEL)
    ensures ParamAccepted(l, afterSentinel) && LocalAccepted(l) && At(b, start, LocalBytes(l))
    ensures LocalEnd(b, start) == Some(start + |LocalBytes(l)|)
  {
    hide At, TypeBytes, LocalEnd;
    l := ParsedLocal(b, start);
    if !l.byRef && !l.pointer {
      PrefixAt(b, start, false, BYREF, Prefix(false, PTR) + TypeBytes(l.ofType));
      PrefixAt(b, start, false, PTR, TypeBytes(l.ofType));
      FirstByte(b, start, l.ofType);
    }
  }

  lemma {:induction false} ParsedParams(b: seq<byte>, cur: nat, left: nat, seen: bool)
      returns (params: seq<Local>, sentinel: nat)
    requires cur <= |b| && ReadParams(b, cur, left, seen).Some?
    ensures |params| == left && sentinel <= left && (seen ==> sentinel == left)
    ensures ParamsAccepted(params, sentinel) && At(b, cur, ParamsBytes(params, sentinel, 0))
    ensures ReadParams(b, cur, left, seen) == Some(ParamSegments(params, sentinel, 0, cur))
    decreases left
  {
    hide At, LocalEnd, ParamAccepted, LocalBytes;
    if left == 0 {
      params, sentinel := [], 0;
      AtNothing(b, cur);
    } else {
      var here := b[cur] == SENTINEL;
      var start := if here then cur + 1 else cur;
      var l := ParsedParam(b, start, here);
      var next := start + |LocalBytes(l)|;
      var p, t := ParsedParams(b, next, left - 1, seen || here);
      params, sentinel := [l] + p, if here then 0 else t + 1;
      ParamsAcceptedCons(l, p, sentinel, t);
      ShiftParams(l, p, sentinel, t, 0, next);
      AtConcat(b, start, LocalBytes(l), ParamsBytes(p, t, 0));
      PrefixAt(b, cur, here, SENTINEL, LocalBytes(l) + ParamsBytes(p, t, 0));
    }
  }

  /** A blob that parses starts with the bytes of a method signature with that shape. */
  lemma ParsedMethod(b: seq<byte>) returns (m: MethodSig)
    requires ReadMethod(b).Some?
    ensures MethodAccepted(m) && At(b, 0, MethodBytes(m)) && ReadMethod(b) == Some(ShapeOf(m))
  {
    hide At, ReadParams, ParamsBytes, NumberBytes, ReadNumber, RetEnd, RetBytes, ParamsAccepted, RetAccepted,
      ParamSegments;
    AtByte(b, 0, b[0]);
    var typeArgs := None;
    if IsGeneric(b[0]) {
      var n := WrittenOfRead(b, 1);
      typeArgs := Some(n);
    } else {
      AtNothing(b, 1);
    }
    var at := 1 + |TypeArgsBytes(typeArgs)|;
    var count := WrittenOfRead(b, at);
    var ret := ParsedRet(b, at + count.width);
    var paramsAt := at + count.width + |RetBytes(ret)|;
    var params, sentinel := ParsedParams(b, paramsAt, count.value, false);
    m := MethodSig(b[0], typeArgs, count, ret, params, sentinel);
    var bytes := ParamsBytes(params, sentinel, 0);
    AtConcat(b, at + count.width, RetBytes(ret), bytes);
    AtConcat(b, at, NumberBytes(count), RetBytes(ret) + bytes);
    AtConcat(b, 1, TypeArgsBytes(typeArgs), NumberBytes(count) + (RetBytes(ret) + bytes));
    AtConcat(b, 0, [b[0]], TypeArgsBytes(typeArgs) + (NumberBytes(count) + (RetBytes(ret) + bytes)));
  }

  /**
   * The parameter segments follow one another from position at, each holding its parameter's bytes, with
   * a one-byte gap where the sentinel is and nowhere else.
   */
  lemma {:induction false} ParamSegmentsAdjacent(b: seq<byte>, cur: nat, params: seq<Local>, sentinel: nat, i: nat,
        j: nat)
    requires i <= j < |params| && ParamsAccepted(params, sentinel) && At(b, cur, ParamsBytes(params, sentinel, i))
    ensures
      var s, k := ParamSegments(params, sentinel, i, cur), j - i;
      var gap := if j == sentinel then 1 else 0;
      && At(b, s[k].offset, LocalBytes(params[j])) && s[k].length == |LocalBytes(params[j])|
      && s[k].offset == gap + (if k == 0 then cur else s[k - 1].offset + s[k - 1].length)
    decreases |params| - i
  {
    hide At, ParamAccepted, LocalBytes;
    var l, rest := params[i], ParamsBytes(params, sentinel, i + 1);
    assert ParamAccepted(l, i == sentinel);
    ParamIsLocal(l, i == sentinel);
    assert ParamAccepted(params[j], j == sentinel);
    ParamIsLocal(params[j], j == sentinel);
    PrefixAt(b, cur, i == sentinel, SENTINEL, LocalBytes(l) + rest);
    var start := if i == sentinel then cur + 1 else cur;
    AtConcat(b, start, LocalBytes(l), rest);
    if i < j {
      ParamSegmentsAdjacent(b, start + |LocalBytes(l)|, params, sentinel, i + 1, j);
    }
  }
}
