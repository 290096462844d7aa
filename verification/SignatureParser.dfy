/**
 * The recursive-descent parser as it runs: methods that advance a position through the blob, loop over
 * generic arguments, parameters and locals, and collect segments. On any bytes they end, never read past
 * the end of the blob, and return what the functions of Signatures and MethodSignatures say.
 */
module SignatureParser {
  import opened Bytes
  import opened CompressedNumbers
  import opened Signatures
  import opened MethodSignatures

  method ParseTypeDefOrRefEncoded(b: seq<byte>, cur: nat)
      returns (ok: bool, indexType: nat, index: nat, next: nat)
    ensures ok <==> NumberEnd(b, cur).Some?
    ensures ok ==> NumberEnd(b, cur) == Some(next) && ReadNumber(b, cur) == Some((4 * index + indexType, next))
    ensures ok ==> indexType < 4
  {
    hide ReadNumber;
    var encoded;
    indexType, index := 0, 0;
    ok, encoded, next := ParseNumber(b, cur);
    if ok {
      indexType, index := encoded % 4, encoded / 4;
    }
  }

  method ParseType(b: seq<byte>, cur: nat) returns (ok: bool, next: nat)
    ensures ok <==> TypeEnd(b, cur).Some?
    ensures ok ==> TypeEnd(b, cur) == Some(next)
    decreases |b| - cur
  {
    hide ReadNumber, TypesEnd;
    var elemType;
    ok, elemType, next := ParseByte(b, cur);
    if !ok || elemType == PTR || elemType == FNPTR || elemType == ARRAY {
      return false, next;
    }
    var indexType, index, number;
    if elemType == CLASS || elemType == VALUETYPE {
      ok, indexType, index, next := ParseTypeDefOrRefEncoded(b, next);
    } else if elemType == SZARRAY {
      if next >= |b| || b[next] == CMOD_OPT || b[next] == CMOD_REQD {
        return false, next;
      }
      ok, next := ParseType(b, next);
    } else if elemType == GENERICINST {
      ok, elemType, next := ParseByte(b, next);
      if !ok || (elemType != CLASS && elemType != VALUETYPE) {
        return false, next;
      }
      ok, indexType, index, next := ParseTypeDefOrRefEncoded(b, next);
      if !ok {
        return;
      }
      ok, number, next := ParseNumber(b, next);
      if !ok {
        return;
      }
      ok, next := ParseTypes(b, next, number, cur);
    } else if elemType == VAR || elemType == MVAR {
      ok, number, next := ParseNumber(b, next);
    }
  }

  /** The argument loop of a generic instance that starts at outer. */
  method ParseTypes(b: seq<byte>, cur: nat, number: nat, ghost outer: nat) returns (ok: bool, next: nat)
    requires outer < cur <= |b|
    ensures ok <==> TypesEnd(b, cur, number).Some?
    ensures ok ==> TypesEnd(b, cur, number) == Some(next)
    decreases |b| - outer, 0
  {
    hide TypeEnd;
    next := cur;
    for i := 0 to number
      invariant cur <= next <= |b|
      invariant TypesEnd(b, cur, number) == TypesEnd(b, next, number - i)
    {
      ok, next := ParseType(b, next);
      if !ok {
        return;
      }
    }
    ok := true;
  }

  method ParseParamOrLocal(b: seq<byte>, cur: nat) returns (ok: bool, next: nat)
    ensures ok <==> LocalEnd(b, cur).Some?
    ensures ok ==> LocalEnd(b, cur) == Some(next)
  {
    hide TypeEnd;
    next := cur;
    if next >= |b| || b[next] == CMOD_OPT || b[next] == CMOD_REQD || b[next] == TYPEDBYREF {
      return false, next;
    }
    if b[next] == BYREF {
      next := next + 1;
    }
    if next >= |b| {
      return false, next;
    }
    if b[next] == PTR {
      next := next + 1;
    }
    ok, next := ParseType(b, next);
  }

  method ParseRetType(b: seq<byte>, cur: nat) returns (ok: bool, next: nat)
    ensures ok <==> RetEnd(b, cur).Some?
    ensures ok ==> RetEnd(b, cur) == Some(next)
  {
    hide TypeEnd;
    next := cur;
    if next >= |b| || b[next] == CMOD_OPT || b[next] == CMOD_REQD || b[next] == TYPEDBYREF {
      return false, next;
    }
    if b[next] == VOID {
      return true, next + 1;
    }
    if b[next] == BYREF {
      next := next + 1;
    }
    ok, next := ParseType(b, next);
  }

  /** What is still to be read, in front of what has been collected. */
  function Collected(done: seq<Segment>, rest: Option<seq<Segment>>): (r: Option<seq<Segment>>) {
    if rest.None? then None else Some(done + rest.value)
  }

  lemma NothingCollected(rest: Option<seq<Segment>>)
    ensures Collected([], rest) == rest
  {
    if rest.Some? {
      assert [] + rest.value == rest.value;
    }
  }

  lemma CollectedOneMore(done: seq<Segment>, x: Segment, rest: seq<Segment>)
    ensures Collected(done, Some([x] + rest)) == Collected(done + [x], Some(rest))
  {
    assert done + ([x] + rest) == (done + [x]) + rest;
  }

  /** FunctionLocalSignature::TryParse. */
  method TryParseLocals(b: seq<byte>) returns (r: Option<seq<Segment>>)
    ensures r == ReadLocalSig(b)
  {
    hide ReadNumber, LocalEnd;
    var ok, temp, cur := ParseByte(b, 0);
    if !ok || temp != LOCAL_SIG {
      return None;
    }
    var count;
    ok, count, cur := ParseNumber(b, cur);
    if !ok {
      return None;
    }
    var locals: seq<Segment> := [];
    ghost var start: nat := cur;
    NothingCollected(ReadLocals(b, start, count));
    for i := 0 to count
      invariant 0 <= cur
      invariant ReadLocals(b, start, count) == Collected(locals, ReadLocals(b, cur, count - i))
    {
      if cur >= |b| {
        return None;
      }
      var local := cur;
      ok, cur := ParseParamOrLocal(b, cur);
      if !ok {
        return None;
      }
      ghost var rest := ReadLocals(b, cur, count - i - 1);
      if rest.Some? {
        CollectedOneMore(locals, Segment(local, cur - local), rest.value);
      }
      locals := locals + [Segment(local, cur - local)];
    }
    assert locals + [] == locals;
    r := Some(locals);
  }

  /** FunctionMethodSignature::TryParse. */
  method TryParseMethod(b: seq<byte>) returns (r: Option<MethodShape>)
    ensures r == ReadMethod(b)
  {
    hide ReadNumber, LocalEnd, RetEnd, ReadParams;
    var ok, elemType, cur := ParseByte(b, 0);
    if !ok {
      return None;
    }
    var numberOfTypeArguments := 0;
    if IsGeneric(elemType) {
      ok, numberOfTypeArguments, cur := ParseNumber(b, cur);
      if !ok {
        return None;
      }
    }
    var count;
    ok, count, cur := ParseNumber(b, cur);
    if !ok {
      return None;
    }
    var retAt := cur;
    ok, cur := ParseRetType(b, cur);
    if !ok {
      return None;
    }
    var returnValue := Segment(retAt, cur - retAt);
    var params := ParseParams(b, cur, count);
    if params.None? {
      return None;
    }
    r := Some(MethodShape(numberOfTypeArguments, count, returnValue, params.value));
  }

  /** The parameter loop of TryParse. */
  method ParseParams(b: seq<byte>, start: nat, count: nat) returns (r: Option<seq<Segment>>)
    ensures r == ReadParams(b, start, count, false)
  {
    hide LocalEnd;
    var params: seq<Segment> := [];
    var encounteredSentinel := false;
    var cur: nat := start;
    NothingCollected(ReadParams(b, start, count, false));
    for i := 0 to count
      invariant 0 <= cur
      invariant ReadParams(b, start, count, false) ==
        Collected(params, ReadParams(b, cur, count - i, encounteredSentinel))
    {
      if cur >= |b| {
        return None;
      }
      if b[cur] == SENTINEL {
        if encounteredSentinel {
          return None;
        }
        encounteredSentinel := true;
        cur := cur + 1;
      }
      var param := cur;
      var ok;
      ok, cur := ParseParamOrLocal(b, cur);
      if !ok {
        return None;
      }
      ghost var rest := ReadParams(b, cur, count - i - 1, encounteredSentinel);
      if rest.Some? {
        CollectedOneMore(params, Segment(param, cur - param), rest.value);
      }
      params := params + [Segment(param, cur - param)];
    }
    assert params + [] == params;
    r := Some(params);
  }
}
