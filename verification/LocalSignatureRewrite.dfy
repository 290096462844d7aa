/**
 * ModifyLocalSig: the locals of an instrumented method are the old ones followed by the return value, the
 * exception, the call-target return, the locals of the concrete token class, and the call-target state.
 * The new blob is assembled in a 500-byte buffer; the positions of the new locals are counted from the end.
 */
module LocalSignatureRewrite {
  import opened Bytes
  import opened CompressedNumbers
  import opened Signatures
  import opened MethodSignatures

  const SIGNATURE_BUFFER_SIZE: nat := 500
  /** The index reported when there is no return-value local: ULONG_MAX. */
  const NO_INDEX: nat := 0xFFFF_FFFF

  /** The encoded tokens of the types the rewriter adds. */
  datatype Tokens =
    Tokens(exception: Number, state: Number, genericReturn: Number, voidReturn: Number, refStruct: Number)

  predicate ValidTokens(t: Tokens) {
    IsNumber(t.exception) && IsNumber(t.state) && IsNumber(t.genericReturn) && IsNumber(t.voidReturn) &&
      IsNumber(t.refStruct)
  }

  /** All five are references to types of another module: the lowest two bits of the encoding are 01. */
  predicate AreTypeRefs(t: Tokens) {
    t.exception.value % 4 == 1 && t.state.value % 4 == 1 && t.genericReturn.value % 4 == 1 &&
    t.voidReturn.value % 4 == 1 && t.refStruct.value % 4 == 1
  }

  /** No two of them are the same. */
  predicate AreDistinct(t: Tokens) {
    |{t.exception.value, t.state.value, t.genericReturn.value, t.voidReturn.value, t.refStruct.value}| == 5
  }

  /**
   * The token class: the base class adds no locals, TracerTokens two exceptions and one local per by-ref-like
   * argument.
   */
  datatype TokenClass = Base | Tracer(refStructs: nat)

  function ClassType(n: Number): (t: SigType) {
    Named(false, n)
  }

  function ValueType(n: Number): (t: SigType) {
    Named(true, n)
  }

  /** The locals AddAdditionalLocals appends. */
  function AdditionalTypes(k: TokenClass, t: Tokens): (s: seq<SigType>)
    ensures |s| == AdditionalCount(k)
    ensures forall i :: 0 <= i < |s| ==> s[i] == if i < 2 then ClassType(t.exception) else ValueType(t.refStruct)
  {
    match k
    case Base => []
    case Tracer(n) => [ClassType(t.exception), ClassType(t.exception)] + seq(n, _ => ValueType(t.refStruct))
  }

  function AdditionalCount(k: TokenClass): (n: nat) {
    match k
    case Base => 0
    case Tracer(n) => 2 + n
  }

  // ---- The new signature as bytes ----

  function NamedBytes(t: SigType): (b: seq<byte>)
    requires t.Named? && IsNumber(t.index)
    ensures |b| == 1 + t.index.width
  {
    [NamedCode(t.valueType)] + NumberBytes(t.index)
  }

  /** The type of the call-target return local for the given return type, or for none. */
  function TargetReturnBytes(ret: Option<seq<byte>>, t: Tokens): (b: seq<byte>)
    requires ValidTokens(t)
  {
    match ret
    case None => NamedBytes(ValueType(t.voidReturn))
    case Some(r) => [GENERICINST, VALUETYPE] + NumberBytes(t.genericReturn) + [0x01] + r
  }

  function RepeatBytes(b: seq<byte>, n: nat): (r: seq<byte>)
    ensures |r| == n * |b|
  {
    if n == 0 then [] else RepeatBytes(b, n - 1) + b
  }

  function AdditionalBytes(k: TokenClass, t: Tokens): (b: seq<byte>)
    requires ValidTokens(t)
  {
    match k
    case Base => []
    case Tracer(n) =>
      NamedBytes(ClassType(t.exception)) + NamedBytes(ClassType(t.exception)) +
      RepeatBytes(NamedBytes(ValueType(t.refStruct)), n)
  }

  /** What is appended to the old locals. */
  function AppendedBytes(ret: Option<seq<byte>>, k: TokenClass, t: Tokens): (b: seq<byte>)
    requires ValidTokens(t)
  {
    (if ret.Some? then ret.value else []) + NamedBytes(ClassType(t.exception)) + TargetReturnBytes(ret, t) +
    AdditionalBytes(k, t) + NamedBytes(ValueType(t.state))
  }

  function AppendedCount(ret: Option<seq<byte>>, k: TokenClass): (n: nat) {
    3 + AdditionalCount(k) + if ret.Some? then 1 else 0
  }

  /** Declared count of locals and its width in the old signature; no signature declares none. */
  function OldCount(original: seq<byte>): (n: Number)
    requires original != [] ==> ReadNumber(original, 1).Some?
    ensures original != [] ==> 1 + n.width <= |original|
  {
    if original == [] then Number(0, 0)
    else
      var (v, next) := ReadNumber(original, 1).value;
      Number(v, next - 1)
  }

  function OldLocals(original: seq<byte>): (b: seq<byte>)
    requires original != [] ==> ReadNumber(original, 1).Some?
  {
    if original == [] then [] else original[1 + OldCount(original).width..]
  }

  /** The blob ends in the state type: ModifyLocalSig takes it for one of its own. */
  predicate LooksRewritten(original: seq<byte>, t: Tokens)
    requires ValidTokens(t)
  {
    var n := t.state.width;
    |original| > n && original[|original| - n - 1] == VALUETYPE && original[|original| - n..] == NumberBytes(t.state)
  }

  /** The count of the new signature in its shortest form. */
  function NewCount(original: seq<byte>, ret: Option<seq<byte>>, k: TokenClass): (n: Option<Number>)
    requires original != [] ==> ReadNumber(original, 1).Some?
    ensures n.Some? ==> IsNumber(n.value) && n.value.value == OldCount(original).value + AppendedCount(ret, k)
  {
    Compressed(OldCount(original).value + AppendedCount(ret, k))
  }

  function Rewritten(original: seq<byte>, ret: Option<seq<byte>>, k: TokenClass, t: Tokens): (b: seq<byte>)
    requires ValidTokens(t) && (original != [] ==> ReadNumber(original, 1).Some?)
    requires NewCount(original, ret, k).Some?
  {
    [LOCAL_SIG] + NumberBytes(NewCount(original, ret, k).value) + OldLocals(original) + AppendedBytes(ret, k, t)
  }

  // ---- The new signature as a list of locals ----

  function LocalOf(t: SigType): (l: Local) {
    Local(false, false, t)
  }

  function TargetReturnType(ret: Option<SigType>, t: Tokens): (r: SigType) {
    match ret
    case None => ValueType(t.voidReturn)
    case Some(r) => Instance(true, t.genericReturn, Number(1, 1), [r])
  }

  function AppendedTypes(ret: Option<SigType>, k: TokenClass, t: Tokens): (s: seq<SigType>) {
    (if ret.Some? then [ret.value] else []) + [ClassType(t.exception), TargetReturnType(ret, t)] +
    AdditionalTypes(k, t) + [ValueType(t.state)]
  }

  function LocalsOf(s: seq<SigType>): (l: seq<Local>)
    ensures |l| == |s| && forall i :: 0 <= i < |s| ==> l[i] == LocalOf(s[i])
  {
    seq(|s|, i requires 0 <= i < |s| => LocalOf(s[i]))
  }

  /** The locals of the instrumented method. */
  function NewLocals(locals: seq<Local>, ret: Option<SigType>, k: TokenClass, t: Tokens): (l: seq<Local>) {
    locals + LocalsOf(AppendedTypes(ret, k, t))
  }

  /** A non-void, non-byref return type. */
  predicate ValueReturn(r: SigType) {
    RetAccepted(Returned(false, r))
  }

  function BytesOf(ret: Option<SigType>): (b: Option<seq<byte>>)
    requires ret.Some? ==> ValueReturn(ret.value)
  {
    if ret.Some? then Some(TypeBytes(ret.value)) else None
  }

  lemma {:induction false} LocalsBytesConcat(a: seq<Local>, b: seq<Local>)
    requires LocalsAccepted(a) && LocalsAccepted(b)
    ensures LocalsAccepted(a + b) && LocalsBytes(a + b) == LocalsBytes(a) + LocalsBytes(b)
    decreases |a|
  {
    hide LocalAccepted, LocalBytes;
    if a == [] {
      assert a + b == b;
    } else {
      LocalsBytesConcat(a[1..], b);
      assert (a + b)[1..] == a[1..] + b;
    }
  }

  lemma OneLocal(t: SigType)
    requires LocalAccepted(LocalOf(t))
    ensures LocalsAccepted([LocalOf(t)]) && LocalsBytes([LocalOf(t)]) == TypeBytes(t)
  {
    hide TypeBytes, Accepted;
  }

  lemma NamedLocal(t: SigType)
    requires t.Named? && IsNumber(t.index)
    ensures LocalAccepted(LocalOf(t)) && Accepted(t) && TypeBytes(t) == NamedBytes(t)
  {
    hide NumberBytes;
  }

  lemma TargetReturnLocal(ret: Option<SigType>, t: Tokens)
    requires ValidTokens(t) && (ret.Some? ==> ValueReturn(ret.value))
    ensures LocalAccepted(LocalOf(TargetReturnType(ret, t)))
    ensures TypeBytes(TargetReturnType(ret, t)) == TargetReturnBytes(BytesOf(ret), t)
  {
    hide NumberBytes;
    if ret.Some? {
      var r := ret.value;
      assert NumberBytes(Number(1, 1)) == [0x01] by { OneByteNumber(); }
      assert TypesBytes([r]) == TypeBytes(r) + TypesBytes([]);
    } else {
      NamedLocal(ValueType(t.voidReturn));
    }
  }

  lemma OneByteNumber()
    ensures NumberBytes(Number(1, 1)) == [0x01]
  {
  }

  lemma {:induction false} RepeatedLocals(t: SigType, n: nat)
    requires t.Named? && IsNumber(t.index)
    ensures
      var l := LocalsOf(seq(n, _ => t));
      LocalsAccepted(l) && LocalsBytes(l) == RepeatBytes(NamedBytes(t), n)
  {
    hide LocalAccepted, LocalBytes, TypeBytes, NamedBytes;
    NamedLocal(t);
    if n > 0 {
      RepeatedLocals(t, n - 1);
      OneLocal(t);
      var l, m := LocalsOf(seq(n, _ => t)), LocalsOf(seq(n - 1, _ => t));
      assert l == m + [LocalOf(t)];
      LocalsBytesConcat(m, [LocalOf(t)]);
    }
  }

  lemma AdditionalLocals(k: TokenClass, t: Tokens)
    requires ValidTokens(t)
    ensures
      var l := LocalsOf(AdditionalTypes(k, t));
      LocalsAccepted(l) && LocalsBytes(l) == AdditionalBytes(k, t)
  {
    hide LocalAccepted, LocalBytes, TypeBytes, NamedBytes, RepeatBytes, LocalsBytes;
    if k.Base? {
      assert LocalsOf(AdditionalTypes(k, t)) == [];
      NoLocals();
    } else {
      var e := ClassType(t.exception);
      NamedLocal(e);
      OneLocal(e);
      var r := seq(k.refStructs, _ => ValueType(t.refStruct));
      RepeatedLocals(ValueType(t.refStruct), k.refStructs);
      LocalsBytesConcat([LocalOf(e)], [LocalOf(e)]);
      LocalsBytesConcat([LocalOf(e)] + [LocalOf(e)], LocalsOf(r));
      assert LocalsOf(AdditionalTypes(k, t)) == [LocalOf(e)] + [LocalOf(e)] + LocalsOf(r);
    }
  }

  lemma NoLocals()
    ensures LocalsAccepted([]) && LocalsBytes([]) == []
  {
  }

  lemma AppendedLocals(ret: Option<SigType>, k: TokenClass, t: Tokens)
    requires ValidTokens(t) && (ret.Some? ==> ValueReturn(ret.value))
    ensures
      var l := LocalsOf(AppendedTypes(ret, k, t));
      LocalsAccepted(l) && LocalsBytes(l) == AppendedBytes(BytesOf(ret), k, t)
  {
    hide LocalBytes, TypeBytes, NamedBytes, LocalsBytes, AdditionalBytes, TargetReturnBytes, TargetReturnType,
      Accepted, LocalsAccepted, AdditionalTypes;
    var first: seq<Local> := if ret.Some? then [LocalOf(ret.value)] else [];
    if ret.Some? {
      OneLocal(ret.value);
    } else {
      NoLocals();
    }
    var e, c, s := ClassType(t.exception), TargetReturnType(ret, t), ValueType(t.state);
    NamedLocal(e);
    OneLocal(e);
    LocalsBytesConcat(first, [LocalOf(e)]);
    TargetReturnLocal(ret, t);
    OneLocal(c);
    LocalsBytesConcat(first + [LocalOf(e)], [LocalOf(c)]);
    AdditionalLocals(k, t);
    var more := LocalsOf(AdditionalTypes(k, t));
    LocalsBytesConcat(first + [LocalOf(e)] + [LocalOf(c)], more);
    NamedLocal(s);
    OneLocal(s);
    LocalsBytesConcat(first + [LocalOf(e)] + [LocalOf(c)] + more, [LocalOf(s)]);
    assert LocalsOf(AppendedTypes(ret, k, t)) == first + [LocalOf(e)] + [LocalOf(c)] + more + [LocalOf(s)];
  }

  // ---- Main results ----

  /** No signature at all, or the bytes of the given locals. */
  predicate HoldsLocals(original: seq<byte>, count: Number, locals: seq<Local>) {
    if original == [] then locals == []
    else
      && IsNumber(count) && count.value == |locals| && LocalsAccepted(locals)
      && original == LocalSigBytes(count, locals)
  }

  lemma AtItself(b: seq<byte>)
    ensures At(b, 0, b)
  {
  }

  lemma OldParts(original: seq<byte>, count: Number, locals: seq<Local>)
    requires HoldsLocals(original, count, locals)
    ensures original != [] ==> ReadNumber(original, 1).Some?
    ensures OldCount(original).value == |locals| && LocalsAccepted(locals)
    ensures OldLocals(original) == LocalsBytes(locals)
  {
    hide LocalAccepted, LocalBytes, NumberBytes, ReadNumber, At, LocalsBytes;
    if original == [] {
      NoLocals();
    } else {
      AtItself(original);
      AtConcat(original, 0, [LOCAL_SIG], NumberBytes(count) + LocalsBytes(locals));
      AtConcat(original, 1, NumberBytes(count), LocalsBytes(locals));
      ReadOfWritten(original, 1, count);
      assert original == [LOCAL_SIG] + NumberBytes(count) + LocalsBytes(locals);
    }
  }

  /**
   * The new blob is the signature of the old locals followed by the new ones, so it parses to one
   * segment for each of them, whatever the width of the old and of the new count.
   */
  lemma RewriteIsSplice(original: seq<byte>, count: Number, locals: seq<Local>, ret: Option<SigType>,
      k: TokenClass, t: Tokens)
    requires ValidTokens(t) && (ret.Some? ==> ValueReturn(ret.value)) && HoldsLocals(original, count, locals)
    ensures original != [] ==> ReadNumber(original, 1).Some?
    ensures NewCount(original, BytesOf(ret), k).Some? ==>
      var n, all, blob := NewCount(original, BytesOf(ret), k).value, NewLocals(locals, ret, k, t),
        Rewritten(original, BytesOf(ret), k, t);
      && n.value == |all| && LocalsAccepted(all) && blob == LocalSigBytes(n, all)
      && ReadLocalSig(blob) == Some(LocalSegments(all, 1 + n.width))
  {
    hide LocalsAccepted, NumberBytes, ReadNumber, LocalsBytes, OldLocals, OldCount, AppendedBytes, AppendedTypes,
      LocalsOf, ValueReturn, BytesOf, IsNumber, ReadLocals, LocalSegments;
    OldParts(original, count, locals);
    if NewCount(original, BytesOf(ret), k).Some? {
      AppendedLocals(ret, k, t);
      AppendedTypesCount(ret, k, t);
      var more := LocalsOf(AppendedTypes(ret, k, t));
      LocalsBytesConcat(locals, more);
      var n, all := NewCount(original, BytesOf(ret), k).value, NewLocals(locals, ret, k, t);
      var blob := Rewritten(original, BytesOf(ret), k, t);
      assert blob == [LOCAL_SIG] + (NumberBytes(n) + (LocalsBytes(locals) + LocalsBytes(more)));
      AtItself(blob);
      LocalSigParses(blob, n, all);
    }
  }

  lemma AppendedTypesCount(ret: Option<SigType>, k: TokenClass, t: Tokens)
    requires ret.Some? ==> ValueReturn(ret.value)
    ensures |LocalsOf(AppendedTypes(ret, k, t))| == |AppendedTypes(ret, k, t)| == AppendedCount(BytesOf(ret), k)
  {
    hide ValueReturn, TypeBytes;
  }

  /** Applied to its own output, ModifyLocalSig always declines. */
  lemma RewriteIsRecognized(original: seq<byte>, ret: Option<seq<byte>>, k: TokenClass, t: Tokens)
    requires ValidTokens(t) && (original != [] ==> ReadNumber(original, 1).Some?)
    requires NewCount(original, ret, k).Some?
    ensures LooksRewritten(Rewritten(original, ret, k, t), t)
  {
    hide NumberBytes, ReadNumber, OldLocals, OldCount, AdditionalBytes, TargetReturnBytes;
    var b := Rewritten(original, ret, k, t);
    var front := [LOCAL_SIG] + NumberBytes(NewCount(original, ret, k).value) + OldLocals(original) +
      ((if ret.Some? then ret.value else []) + NamedBytes(ClassType(t.exception)) + TargetReturnBytes(ret, t) +
      AdditionalBytes(k, t));
    assert b == front + [VALUETYPE] + NumberBytes(t.state);
  }

  /**
   * The converse fails: the check looks at trailing bytes only, so a signature whose last local is an
   * array of the state type is declined although the rewriter never produced it.
   */
  lemma UnrewrittenCanBeDeclined(t: Tokens)
    requires ValidTokens(t)
    ensures
      var locals := [LocalOf(Vector(ValueType(t.state)))];
      && LocalsAccepted(locals) && LooksRewritten(LocalSigBytes(Number(1, 1), locals), t)
      && locals[0] != LocalOf(ValueType(t.state))
  {
    hide NumberBytes;
    var v := Vector(ValueType(t.state));
    NamedLocal(ValueType(t.state));
    OneLocal(v);
    var b := LocalSigBytes(Number(1, 1), [LocalOf(v)]);
    assert b == [LOCAL_SIG] + NumberBytes(Number(1, 1)) + [SZARRAY] + [VALUETYPE] + NumberBytes(t.state);
  }

  /** The positions ModifyLocalSig reports. */
  datatype Indices =
    Indices(returnValue: nat, exception: nat, callTargetReturn: nat, additional: seq<nat>, state: nat)

  function IndicesOf(oldCount: nat, ret: Option<seq<byte>>, k: TokenClass): (x: Indices) {
    var first := oldCount + if ret.Some? then 1 else 0;
    Indices(if ret.Some? then oldCount else NO_INDEX, first, first + 1,
      seq(AdditionalCount(k), i requires 0 <= i < AdditionalCount(k) => first + 2 + i), first + 2 + AdditionalCount(k))
  }

  /** Every reported position names its own local in the new list, and the last is the state's. */
  lemma IndicesNameTheirLocals(locals: seq<Local>, ret: Option<SigType>, k: TokenClass, t: Tokens)
    requires ret.Some? ==> ValueReturn(ret.value)
    ensures
      var x, all := IndicesOf(|locals|, BytesOf(ret), k), NewLocals(locals, ret, k, t);
      && |locals| + AppendedCount(BytesOf(ret), k) == |all| && locals <= all
      && (ret.Some? ==> all[x.returnValue] == LocalOf(ret.value))
      && (ret.None? ==> x.returnValue == NO_INDEX)
      && all[x.exception] == LocalOf(ClassType(t.exception))
      && all[x.callTargetReturn] == LocalOf(TargetReturnType(ret, t))
      && (forall i :: 0 <= i < AdditionalCount(k) ==> all[x.additional[i]] == LocalOf(AdditionalTypes(k, t)[i]))
      && x.state == |all| - 1 && all[x.state] == LocalOf(ValueType(t.state))
  {
    hide ValueReturn, AdditionalTypes, TypeBytes;
  }

  // ---- The rewrite as it runs ----

  /** Overrun: a write would have reached past the end of the buffer, where the source goes on regardless. */
  datatype Outcome = Declined | Overrun | Done(signature: seq<byte>, indices: Indices)

  /** Copies b to the end of what the buffer holds so far, if it fits. */
  method Append(buffer: array<byte>, offset: nat, b: seq<byte>) returns (fits: bool, end: nat)
    requires offset <= buffer.Length
    modifies buffer
    ensures fits <==> offset + |b| <= buffer.Length
    ensures fits ==> end == offset + |b| && buffer[..end] == old(buffer[..offset]) + b
  {
    fits, end := offset + |b| <= buffer.Length, offset + |b|;
    if fits {
      WriteBytes(buffer, offset, b);
      assert buffer[..end] == buffer[..][0..offset] + buffer[..][offset..end];
    }
  }

  /** What AddAdditionalLocals of the tracer has written after i by-ref-like arguments. */
  function TracerBytes(t: Tokens, i: nat): (b: seq<byte>)
    requires ValidTokens(t)
  {
    NamedBytes(ClassType(t.exception)) + NamedBytes(ClassType(t.exception)) +
    RepeatBytes(NamedBytes(ValueType(t.refStruct)), i)
  }

  /** The additional locals that start at offset are let through by the accounted size, but do not fit. */
  predicate AdditionalOutside(offset: nat, size: nat, k: TokenClass, t: Tokens)
    requires ValidTokens(t)
  {
    k.Tracer? && exists i :: 0 <= i <= k.refStructs && AdditionOutside(offset, size, t, i)
  }

  predicate AdditionOutside(offset: nat, size: nat, t: Tokens, i: nat)
    requires ValidTokens(t)
  {
    size + |TracerBytes(t, i)| <= SIGNATURE_BUFFER_SIZE < offset + |TracerBytes(t, i)|
  }

  /** AddAdditionalLocals of the two token classes; it stops writing when the size goes over the buffer's. */
  method AddAdditionalLocals(buffer: array<byte>, offset: nat, size: nat, k: TokenClass, t: Tokens)
      returns (fits: bool, end: nat, newSize: nat)
    requires ValidTokens(t) && buffer.Length == SIGNATURE_BUFFER_SIZE
    requires offset <= SIGNATURE_BUFFER_SIZE && size <= SIGNATURE_BUFFER_SIZE
    modifies buffer
    ensures fits <==> !AdditionalOutside(offset, size, k, t)
    ensures fits ==> (newSize <= SIGNATURE_BUFFER_SIZE <==> size + |AdditionalBytes(k, t)| <= SIGNATURE_BUFFER_SIZE)
    ensures fits && newSize <= SIGNATURE_BUFFER_SIZE ==>
      && newSize == size + |AdditionalBytes(k, t)| && end == offset + |AdditionalBytes(k, t)| <= SIGNATURE_BUFFER_SIZE
      && buffer[..end] == old(buffer[..offset]) + AdditionalBytes(k, t)
  {
    hide NamedBytes;
    fits, end, newSize := true, offset, size;
    if k.Base? {
      return;
    }
    var exception, refStruct := NamedBytes(ClassType(t.exception)), NamedBytes(ValueType(t.refStruct));
    newSize := newSize + 2 * |exception|;
    if newSize > SIGNATURE_BUFFER_SIZE {
      NoneFits(offset, size, t, 0, k.refStructs);
      return;
    }
    assert |TracerBytes(t, 0)| == 2 * |exception|;
    fits, end := Append(buffer, end, exception);
    if fits {
      fits, end := Append(buffer, end, exception);
    }
    if !fits {
      assert AdditionOutside(offset, size, t, 0);
      return;
    }
    for i := 0 to k.refStructs
      invariant fits && newSize == size + |TracerBytes(t, i)| <= SIGNATURE_BUFFER_SIZE
      invariant end == offset + |TracerBytes(t, i)| <= SIGNATURE_BUFFER_SIZE
      invariant buffer[..end] == old(buffer[..offset]) + TracerBytes(t, i)
      invariant forall j :: 0 <= j <= i ==> !AdditionOutside(offset, size, t, j)
    {
      newSize := newSize + |refStruct|;
      if newSize > SIGNATURE_BUFFER_SIZE {
        NoneFits(offset, size, t, i + 1, k.refStructs);
        MoreIsLonger(refStruct, i + 1, k.refStructs);
        return;
      }
      assert TracerBytes(t, i + 1) == TracerBytes(t, i) + refStruct;
      fits, end := Append(buffer, end, refStruct);
      if !fits {
        assert AdditionOutside(offset, size, t, i + 1);
        return;
      }
    }
  }

  /** Once the accounted size is over the limit nothing more is let through. */
  lemma NoneFits(offset: nat, size: nat, t: Tokens, m: nat, n: nat)
    requires ValidTokens(t) && size + |TracerBytes(t, m)| > SIGNATURE_BUFFER_SIZE
    ensures forall i :: m <= i <= n ==> !AdditionOutside(offset, size, t, i)
    ensures m <= n ==> size + |TracerBytes(t, n)| > SIGNATURE_BUFFER_SIZE
  {
    hide NamedBytes;
    forall i: nat | m <= i ensures |TracerBytes(t, m)| <= |TracerBytes(t, i)| {
      MoreIsLonger(NamedBytes(ValueType(t.refStruct)), m, i);
    }
  }

  lemma {:induction false} MoreIsLonger(b: seq<byte>, m: nat, n: nat)
    requires m <= n
    ensures |RepeatBytes(b, m)| <= |RepeatBytes(b, n)|
  {
    if m < n {
      MoreIsLonger(b, m, n - 1);
    }
  }

  /**
   * A method without locals has its count accounted for as one byte, which falls short when it gets more
   * than 127 of them.
   */
  predicate CountUnderestimated(original: seq<byte>, ret: Option<seq<byte>>, k: TokenClass) {
    original == [] && AppendedCount(ret, k) > 0x7F
  }

  /** The size the source accounts for: that of the new signature, save for such a count. */
  function AccountedSize(original: seq<byte>, ret: Option<seq<byte>>, k: TokenClass, t: Tokens): (n: int)
    requires ValidTokens(t) && (original != [] ==> ReadNumber(original, 1).Some?)
    requires NewCount(original, ret, k).Some?
  {
    |Rewritten(original, ret, k, t)| - if original == [] then NewCount(original, ret, k).value.width - 1 else 0
  }

  /** The size accounted for before the additional locals are. */
  function FirstSize(original: seq<byte>, ret: Option<seq<byte>>, k: TokenClass, t: Tokens): (n: int)
    requires ValidTokens(t) && (original != [] ==> ReadNumber(original, 1).Some?)
    requires NewCount(original, ret, k).Some?
  {
    AccountedSize(original, ret, k, t) - |AdditionalBytes(k, t)|
  }

  /** Everything up to the additional locals. */
  function Front(original: seq<byte>, ret: Option<seq<byte>>, k: TokenClass, t: Tokens): (b: seq<byte>)
    requires ValidTokens(t) && (original != [] ==> ReadNumber(original, 1).Some?)
    requires NewCount(original, ret, k).Some?
  {
    [LOCAL_SIG] + NumberBytes(NewCount(original, ret, k).value) + OldLocals(original) +
    (if ret.Some? then ret.value else []) + NamedBytes(ClassType(t.exception)) + TargetReturnBytes(ret, t)
  }

  lemma FrontParts(original: seq<byte>, ret: Option<seq<byte>>, k: TokenClass, t: Tokens)
    requires ValidTokens(t) && (original != [] ==> ReadNumber(original, 1).Some?)
    requires NewCount(original, ret, k).Some?
    ensures Rewritten(original, ret, k, t)
         == Front(original, ret, k, t) + AdditionalBytes(k, t) + NamedBytes(ValueType(t.state))
    ensures FirstSize(original, ret, k, t) == |Front(original, ret, k, t)| + |NamedBytes(ValueType(t.state))|
         - (if original == [] then NewCount(original, ret, k).value.width - 1 else 0)
    ensures FirstSize(original, ret, k, t) > 0
  {
    hide NumberBytes, ReadNumber, AdditionalBytes, NamedBytes, OldLocals, TargetReturnBytes, OldCount;
    SameBytes([LOCAL_SIG] + NumberBytes(NewCount(original, ret, k).value) + OldLocals(original),
      if ret.Some? then ret.value else [], NamedBytes(ClassType(t.exception)), TargetReturnBytes(ret, t),
      AdditionalBytes(k, t), NamedBytes(ValueType(t.state)));
  }

  /**
   * Assembles the new signature in the fixed buffer; size is what has been accounted for so far. Nothing
   * comes of it when the accounts are wrong in the end.
   */
  method Emit(original: seq<byte>, ret: Option<seq<byte>>, k: TokenClass, t: Tokens, size: nat)
      returns (fits: bool, signature: Option<seq<byte>>)
    requires ValidTokens(t) && (original != [] ==> ReadNumber(original, 1).Some?)
    requires NewCount(original, ret, k).Some?
    requires size == FirstSize(original, ret, k, t) <= SIGNATURE_BUFFER_SIZE
    ensures fits <==> !WritesOutside(original, ret, k, t)
    ensures fits && |Rewritten(original, ret, k, t)| > SIGNATURE_BUFFER_SIZE ==> signature == None
    ensures fits && CountUnderestimated(original, ret, k) ==> signature == None
    ensures fits && !CountUnderestimated(original, ret, k) && |Rewritten(original, ret, k, t)| <= SIGNATURE_BUFFER_SIZE
      ==> signature == Some(Rewritten(original, ret, k, t))
  {
    hide NumberBytes, ReadNumber, AdditionalBytes, NamedBytes, OldLocals, TargetReturnBytes, OldCount, NewCount,
      CountUnderestimated, AdditionalOutside, Rewritten;
    SlipMeansUnderestimated(original, ret, k, t);
    FrontParts(original, ret, k, t);
    signature := None;
    var buffer := new byte[SIGNATURE_BUFFER_SIZE];
    var offset;
    fits, offset := EmitFront(buffer, original, ret, k, t);
    if !fits {
      return;
    }
    ghost var front := buffer[..offset];
    var newSize;
    fits, offset, newSize := AddAdditionalLocals(buffer, offset, size, k, t);
    if !fits || newSize > SIGNATURE_BUFFER_SIZE {
      return;
    }
    fits, offset := Append(buffer, offset, NamedBytes(ValueType(t.state)));
    if !fits || offset != newSize {
      return;
    }
    signature := Some(buffer[..offset]);
  }

  /** Writes everything up to the additional locals, piece by piece. */
  method EmitFront(buffer: array<byte>, original: seq<byte>, ret: Option<seq<byte>>, k: TokenClass, t: Tokens)
      returns (fits: bool, offset: nat)
    requires ValidTokens(t) && (original != [] ==> ReadNumber(original, 1).Some?)
    requires NewCount(original, ret, k).Some? && buffer.Length == SIGNATURE_BUFFER_SIZE
    modifies buffer
    ensures fits <==> |Front(original, ret, k, t)| <= SIGNATURE_BUFFER_SIZE
    ensures fits ==> offset <= SIGNATURE_BUFFER_SIZE && buffer[..offset] == Front(original, ret, k, t)
  {
    hide NumberBytes, ReadNumber, NamedBytes, OldLocals, TargetReturnBytes, OldCount, NewCount;
    var count, returnType := NumberBytes(NewCount(original, ret, k).value), if ret.Some? then ret.value else [];
    var pieces := [[LOCAL_SIG], count, OldLocals(original), returnType, NamedBytes(ClassType(t.exception)),
      TargetReturnBytes(ret, t)];
    SixPieces(pieces);
    fits, offset := true, 0;
    for i := 0 to 6
      invariant fits && offset == |Joined(pieces, i)| <= SIGNATURE_BUFFER_SIZE
      invariant buffer[..offset] == Joined(pieces, i)
    {
      fits, offset := Append(buffer, offset, pieces[i]);
      if !fits {
        JoinedGrows(pieces, i + 1, 6);
        return;
      }
    }
  }

  /** The first n pieces, one behind the other. */
  function Joined(pieces: seq<seq<byte>>, n: nat): (b: seq<byte>)
    requires n <= |pieces|
  {
    if n == 0 then [] else Joined(pieces, n - 1) + pieces[n - 1]
  }

  lemma {:induction false} JoinedGrows(pieces: seq<seq<byte>>, m: nat, n: nat)
    requires m <= n <= |pieces|
    ensures |Joined(pieces, m)| <= |Joined(pieces, n)|
  {
    if m < n {
      JoinedGrows(pieces, m, n - 1);
    }
  }

  lemma SixPieces(p: seq<seq<byte>>)
    requires |p| == 6
    ensures Joined(p, 6) == p[0] + p[1] + p[2] + p[3] + p[4] + p[5]
  {
    assert Joined(p, 1) == p[0];
    assert Joined(p, 2) == p[0] + p[1];
    assert Joined(p, 3) == p[0] + p[1] + p[2];
    assert Joined(p, 4) == Joined(p, 3) + p[3];
    assert Joined(p, 5) == Joined(p, 4) + p[4];
  }

  lemma SlipMeansUnderestimated(original: seq<byte>, ret: Option<seq<byte>>, k: TokenClass, t: Tokens)
    requires ValidTokens(t) && (original != [] ==> ReadNumber(original, 1).Some?)
    requires NewCount(original, ret, k).Some?
    ensures AccountedSize(original, ret, k, t) == |Rewritten(original, ret, k, t)| <==>
      !CountUnderestimated(original, ret, k)
    ensures AccountedSize(original, ret, k, t) <= |Rewritten(original, ret, k, t)|
  {
    hide NumberBytes, ReadNumber, AdditionalBytes, NamedBytes, OldLocals, TargetReturnBytes, Rewritten;
  }

  // ---- Writes outside the buffer ----

  /** Some write passes the checks of the accounted size and still reaches past the end of the buffer. */
  predicate WritesOutside(original: seq<byte>, ret: Option<seq<byte>>, k: TokenClass, t: Tokens)
    requires ValidTokens(t) && (original != [] ==> ReadNumber(original, 1).Some?)
    requires NewCount(original, ret, k).Some?
  {
    var size := FirstSize(original, ret, k, t);
    var front := |Front(original, ret, k, t)|;
    0 <= size <= SIGNATURE_BUFFER_SIZE &&
    (|| front > SIGNATURE_BUFFER_SIZE
     || AdditionalOutside(front, size, k, t)
     || AccountedSize(original, ret, k, t) <= SIGNATURE_BUFFER_SIZE < |Rewritten(original, ret, k, t)|)
  }

  /** The accounted size is exactly the buffer's at some point before the state is written. */
  predicate FillsBuffer(size: int, k: TokenClass, t: Tokens)
    requires ValidTokens(t)
  {
    size == SIGNATURE_BUFFER_SIZE ||
    (k.Tracer? && exists i :: 0 <= i <= k.refStructs && FillsAt(size, t, i))
  }

  predicate FillsAt(size: int, t: Tokens, i: nat)
    requires ValidTokens(t)
  {
    size + |TracerBytes(t, i)| == SIGNATURE_BUFFER_SIZE
  }

  /**
   * When a write falls outside the buffer: only for a method without locals whose new count takes more than
   * one byte. With two bytes it is the last write, and the signature fits by the accounts but not in truth;
   * with four bytes the accounts are full before the last write, of a state type with a one-byte token.
   */
  lemma WritesOutsideExactly(original: seq<byte>, ret: Option<seq<byte>>, k: TokenClass, t: Tokens)
    requires ValidTokens(t) && (original != [] ==> ReadNumber(original, 1).Some?)
    requires NewCount(original, ret, k).Some?
    ensures WritesOutside(original, ret, k, t) <==>
      && CountUnderestimated(original, ret, k)
      && (if AppendedCount(ret, k) <= 0x3FFF
          then AccountedSize(original, ret, k, t) <= SIGNATURE_BUFFER_SIZE < |Rewritten(original, ret, k, t)|
          else t.state.width == 1 && FillsBuffer(FirstSize(original, ret, k, t), k, t))
  {
    hide NumberBytes, ReadNumber, AdditionalBytes, NamedBytes, OldLocals, TargetReturnBytes, Rewritten, TracerBytes,
      Front;
    FrontParts(original, ret, k, t);
    if original == [] && AppendedCount(ret, k) > 0x3FFF {
      ManyLocalsAreLong(original, ret, k, t);
      var size, front := FirstSize(original, ret, k, t), |Front(original, ret, k, t)|;
      assert front == size + 3 - |NamedBytes(ValueType(t.state))|;
      if t.state.width == 1 {
        forall i | 0 <= i <= k.refStructs && size <= SIGNATURE_BUFFER_SIZE
          ensures AdditionOutside(front, size, t, i) <==> FillsAt(size, t, i)
        {
        }
      }
    }
  }

  /** With more than 0x3FFF locals to add, the whole is far larger than the buffer even by the accounts. */
  lemma ManyLocalsAreLong(original: seq<byte>, ret: Option<seq<byte>>, k: TokenClass, t: Tokens)
    requires ValidTokens(t) && original == [] && NewCount(original, ret, k).Some? && AppendedCount(ret, k) > 0x3FFF
    ensures k.Tracer? && AccountedSize(original, ret, k, t) > SIGNATURE_BUFFER_SIZE
  {
    hide NumberBytes, OldLocals, TargetReturnBytes, Rewritten, Front;
    FrontParts(original, ret, k, t);
    var b := NamedBytes(ValueType(t.refStruct));
    MoreIsLonger(b, 500, k.refStructs);
    assert |RepeatBytes(b, 500)| == 500 * |b|;
  }

  /** A void method without locals and with 161 by-ref-like arguments, five type references two bytes wide. */
  lemma OneByteTooLong() returns (t: Tokens)
    ensures ValidTokens(t) && AreTypeRefs(t) && AreDistinct(t) && NewCount([], None, Tracer(161)).Some?
    ensures AccountedSize([], None, Tracer(161), t) == 500 && |Rewritten([], None, Tracer(161), t)| == 501
    ensures WritesOutside([], None, Tracer(161), t)
  {
    hide WritesOutside, AdditionalOutside, TracerBytes, RepeatBytes;
    t := Tokens(Number(0x81, 2), Number(0x85, 2), Number(0x89, 2), Number(0x8D, 2), Number(0x91, 2));
    assert |RepeatBytes(NamedBytes(ValueType(t.refStruct)), 161)| == 161 * 3;
    WritesOutsideExactly([], None, Tracer(161), t);
  }

  lemma SameBytes(a: seq<byte>, b: seq<byte>, c: seq<byte>, d: seq<byte>, e: seq<byte>, f: seq<byte>)
    ensures a + b + c + d + e + f == a + (b + c + d + e + f)
  {
  }

  /** The positions, counted back from the end of the new list. */
  method LocateLocals(newLocalsCount: nat, ret: Option<seq<byte>>, additional: nat) returns (x: Indices)
    requires newLocalsCount >= 3 + additional + if ret.Some? then 1 else 0
    ensures
      var oldCount := newLocalsCount - 3 - additional - if ret.Some? then 1 else 0;
      forall k :: AdditionalCount(k) == additional ==> x == IndicesOf(oldCount, ret, k)
  {
    var offsetFromEnd := 3 + additional;
    var returnValueIndex := if ret.Some? then newLocalsCount - (offsetFromEnd + 1) else NO_INDEX;
    var exceptionIndex := newLocalsCount - offsetFromEnd;
    offsetFromEnd := offsetFromEnd - 1;
    var callTargetReturnIndex := newLocalsCount - offsetFromEnd;
    offsetFromEnd := offsetFromEnd - 1;
    var additionalIndices: seq<nat> := [];
    for i := 0 to additional
      invariant offsetFromEnd == additional + 1 - i && |additionalIndices| == i
      invariant forall j :: 0 <= j < i ==> additionalIndices[j] == newLocalsCount - (additional + 1 - j)
    {
      additionalIndices := additionalIndices + [newLocalsCount - offsetFromEnd];
      offsetFromEnd := offsetFromEnd - 1;
    }
    x := Indices(returnValueIndex, exceptionIndex, callTargetReturnIndex, additionalIndices, newLocalsCount - 1);
  }

  /** ModifyLocalSig up to the call that turns the bytes into a token. */
  method ModifyLocalSig(original: seq<byte>, ret: Option<seq<byte>>, k: TokenClass, t: Tokens)
      returns (r: Outcome)
    requires ValidTokens(t) && (original != [] ==> ReadNumber(original, 1).Some? && original[0] == LOCAL_SIG)
    requires NewCount(original, ret, k).Some?
    ensures r.Overrun? <==> WritesOutside(original, ret, k, t)
    ensures r.Done? <==>
      && !LooksRewritten(original, t) && |Rewritten(original, ret, k, t)| <= SIGNATURE_BUFFER_SIZE
      && !CountUnderestimated(original, ret, k)
    ensures r.Done? ==> r.signature == Rewritten(original, ret, k, t)
    ensures r.Done? ==> r.indices == IndicesOf(OldCount(original).value, ret, k)
  {
    hide NumberBytes, ReadNumber, AdditionalBytes, LooksRewritten, IndicesOf, WritesOutside, AccountedSize, Rewritten,
      NamedBytes, OldLocals, TargetReturnBytes, Front, FirstSize;
    WritesOutsideExactly(original, ret, k, t);
    FrontParts(original, ret, k, t);
    SlipMeansUnderestimated(original, ret, k, t);
    SizeParts(original, ret, k, t);
    if LooksRewritten(original, t) {
      return Declined;
    }
    var newLocalsCount := 3 + AdditionalCount(k);
    var newSize := |original| + (if ret.Some? then |ret.value| else 0) + |NamedBytes(ClassType(t.exception))| +
      |TargetReturnBytes(ret, t)| + |NamedBytes(ValueType(t.state))|;
    if ret.Some? {
      if |TargetReturnBytes(ret, t)| > SIGNATURE_BUFFER_SIZE {
        return Declined;
      }
      newLocalsCount := newLocalsCount + 1;
    }
    if original == [] {
      newSize := newSize + 2;
    } else {
      newLocalsCount := newLocalsCount + OldCount(original).value;
      newSize := newSize + NewCount(original, ret, k).value.width - OldCount(original).width;
    }
    if newSize > SIGNATURE_BUFFER_SIZE {
      return Declined;
    }
    var fits, signature := Emit(original, ret, k, t, newSize);
    if !fits {
      return Overrun;
    }
    if signature.None? {
      return Declined;
    }
    var indices := LocateLocals(newLocalsCount, ret, AdditionalCount(k));
    r := Done(signature.value, indices);
  }

  /** The size computation of ModifyLocalSig, before the additional locals. */
  lemma SizeParts(original: seq<byte>, ret: Option<seq<byte>>, k: TokenClass, t: Tokens)
    requires ValidTokens(t) && (original != [] ==> ReadNumber(original, 1).Some?)
    requires NewCount(original, ret, k).Some?
    ensures FirstSize(original, ret, k, t) ==
      |original| + (if ret.Some? then |ret.value| else 0) + |NamedBytes(ClassType(t.exception))| +
      |TargetReturnBytes(ret, t)| + |NamedBytes(ValueType(t.state))| +
      (if original == [] then 2 else NewCount(original, ret, k).value.width - OldCount(original).width)
    ensures LooksRewritten(original, t) ==> original != []
    ensures FirstSize(original, ret, k, t) > SIGNATURE_BUFFER_SIZE ==>
      !WritesOutside(original, ret, k, t) && |Rewritten(original, ret, k, t)| > SIGNATURE_BUFFER_SIZE
  {
    hide NumberBytes, ReadNumber, AdditionalBytes, NamedBytes, TargetReturnBytes, AdditionalOutside, Front;
  }
}
