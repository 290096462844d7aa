/**
 * What the already-rewritten check of ModifyLocalSig amounts to. It compares trailing bytes, so besides the
 * signatures whose last local is the call-target state it catches two other kinds, and no more: those whose
 * last local ends in the state type, and those in which a compressed number happens to hold the VALUETYPE byte.
 */
module RewriteRecognition {
  import opened Bytes
  import opened CompressedNumbers
  import opened Signatures
  import opened MethodSignatures
  import opened LocalSignatureRewrite

  // ---- Signatures as sequences of atoms ----

  /** Codes and numbers as they follow each other in a signature; value types keep code and number together. */
  datatype Atom = Code(x: byte) | ValueOf(n: Number) | Head(valueType: bool, n: Number) | Num(n: Number)

  predicate Sound(a: Atom) {
    if a.Code? then a.x != VALUETYPE else IsNumber(a.n)
  }

  /** The head of a generic instance is always followed by its argument count. */
  predicate SoundAll(atoms: seq<Atom>) {
    && (forall i :: 0 <= i < |atoms| ==> Sound(atoms[i]))
    && (forall i :: 0 <= i < |atoms| ==> atoms[i].Head? ==> i + 1 < |atoms|)
  }

  function AtomBytes(a: Atom): (b: seq<byte>)
    requires Sound(a)
    ensures |b| > 0
  {
    match a
    case Code(x) => [x]
    case ValueOf(n) => [VALUETYPE] + NumberBytes(n)
    case Head(v, n) => [GENERICINST, NamedCode(v)] + NumberBytes(n)
    case Num(n) => NumberBytes(n)
  }

  function AtomsBytes(atoms: seq<Atom>): (b: seq<byte>)
    requires forall i :: 0 <= i < |atoms| ==> Sound(atoms[i])
    ensures atoms != [] ==> b != []
  {
    if atoms == [] then [] else AtomBytes(atoms[0]) + AtomsBytes(atoms[1..])
  }

  function TypeAtoms(t: SigType): (atoms: seq<Atom>)
    ensures atoms != []
    decreases t, 1
  {
    match t
    case Plain(x) => [Code(x)]
    case Named(v, n) => if v then [ValueOf(n)] else [Code(CLASS), Num(n)]
    case Vector(e) => [Code(SZARRAY)] + TypeAtoms(e)
    case Instance(v, n, k, args) => [Head(v, n), Num(k)] + TypesAtoms(args)
    case Variable(m, n) => [Code(if m then MVAR else VAR), Num(n)]
  }

  function TypesAtoms(args: seq<SigType>): (atoms: seq<Atom>)
    ensures args != [] ==> atoms != []
    decreases args, 0
  {
    if args == [] then [] else TypeAtoms(args[0]) + TypesAtoms(args[1..])
  }

  function PrefixAtoms(present: bool, x: byte): (atoms: seq<Atom>) {
    if present then [Code(x)] else []
  }

  function LocalAtoms(l: Local): (atoms: seq<Atom>)
    ensures atoms != []
  {
    PrefixAtoms(l.byRef, BYREF) + (PrefixAtoms(l.pointer, PTR) + TypeAtoms(l.ofType))
  }

  function LocalsAtoms(locals: seq<Local>): (atoms: seq<Atom>)
    ensures locals != [] ==> atoms != []
  {
    if locals == [] then [] else LocalAtoms(locals[0]) + LocalsAtoms(locals[1..])
  }

  function SignatureAtoms(count: Number, locals: seq<Local>): (atoms: seq<Atom>) {
    [Code(LOCAL_SIG), Num(count)] + LocalsAtoms(locals)
  }

  lemma SoundRest(atoms: seq<Atom>)
    requires SoundAll(atoms) && atoms != []
    ensures Sound(atoms[0]) && SoundAll(atoms[1..]) && (atoms[0].Head? ==> atoms[1..] != [])
    ensures AtomsBytes(atoms) == AtomBytes(atoms[0]) + AtomsBytes(atoms[1..])
  {
    hide Sound, AtomBytes;
    forall i | 0 <= i < |atoms[1..]| ensures Sound(atoms[1..][i]) && (atoms[1..][i].Head? ==> i + 1 < |atoms[1..]|) {
      assert atoms[1..][i] == atoms[i + 1];
    }
  }

  lemma SoundAppend(a: seq<Atom>, b: seq<Atom>)
    requires SoundAll(a) && SoundAll(b)
    ensures SoundAll(a + b)
  {
    hide Sound;
  }

  lemma {:induction false} AtomsAppend(a: seq<Atom>, b: seq<Atom>)
    requires SoundAll(a) && SoundAll(b)
    ensures SoundAll(a + b) && AtomsBytes(a + b) == AtomsBytes(a) + AtomsBytes(b)
    decreases |a|
  {
    hide Sound, AtomBytes, AtomsBytes;
    SoundAppend(a, b);
    if a == [] {
      assert a + b == b;
      NoAtoms();
    } else {
      SoundRest(a);
      SoundRest(a + b);
      assert (a + b)[1..] == a[1..] + b;
      AtomsAppend(a[1..], b);
    }
  }

  lemma OneAtom(a: Atom)
    requires Sound(a)
    ensures AtomsBytes([a]) == AtomBytes(a)
  {
    hide AtomBytes, Sound;
    assert [a][1..] == [];
  }

  lemma TwoAtoms(a: Atom, b: Atom)
    requires Sound(a) && Sound(b)
    ensures AtomsBytes([a, b]) == AtomBytes(a) + AtomBytes(b)
  {
    hide AtomBytes, Sound;
    assert [a, b][1..] == [b];
    OneAtom(b);
  }

  lemma {:induction false} BytesOfType(t: SigType)
    requires Accepted(t)
    ensures SoundAll(TypeAtoms(t)) && AtomsBytes(TypeAtoms(t)) == TypeBytes(t)
    decreases t, 1
  {
    hide NumberBytes, AtomsBytes;
    match t
    case Plain(x) =>
      OneAtom(Code(x));
    case Named(v, n) =>
      if v {
        OneAtom(ValueOf(n));
      } else {
        TwoAtoms(Code(CLASS), Num(n));
      }
    case Vector(e) =>
      BytesOfType(e);
      OneAtom(Code(SZARRAY));
      AtomsAppend([Code(SZARRAY)], TypeAtoms(e));
    case Instance(v, n, k, args) =>
      BytesOfTypes(args);
      BytesOfInstance(v, n, k, TypesAtoms(args));
    case Variable(m, n) =>
      TwoAtoms(Code(if m then MVAR else VAR), Num(n));
  }

  lemma BytesOfInstance(v: bool, n: Number, k: Number, args: seq<Atom>)
    requires IsNumber(n) && IsNumber(k) && SoundAll(args)
    ensures SoundAll([Head(v, n), Num(k)] + args)
    ensures AtomsBytes([Head(v, n), Num(k)] + args)
         == [GENERICINST] + ([NamedCode(v)] + (NumberBytes(n) + (NumberBytes(k) + AtomsBytes(args))))
  {
    hide NumberBytes, AtomsBytes, NamedCode;
    TwoAtoms(Head(v, n), Num(k));
    AtomsAppend([Head(v, n), Num(k)], args);
    assert [GENERICINST, NamedCode(v)] == [GENERICINST] + [NamedCode(v)];
  }

  lemma {:induction false} BytesOfTypes(args: seq<SigType>)
    requires AllAccepted(args)
    ensures SoundAll(TypesAtoms(args)) && AtomsBytes(TypesAtoms(args)) == TypesBytes(args)
    decreases args, 0
  {
    hide Accepted, TypeAtoms, TypeBytes, Sound, AtomBytes;
    if args != [] {
      BytesOfType(args[0]);
      BytesOfTypes(args[1..]);
      AtomsAppend(TypeAtoms(args[0]), TypesAtoms(args[1..]));
    }
  }

  lemma BytesOfPrefix(present: bool, x: byte, rest: seq<Atom>)
    requires x != VALUETYPE && SoundAll(rest)
    ensures SoundAll(PrefixAtoms(present, x) + rest)
    ensures AtomsBytes(PrefixAtoms(present, x) + rest) == Prefix(present, x) + AtomsBytes(rest)
  {
    OneAtom(Code(x));
    AtomsAppend(PrefixAtoms(present, x), rest);
  }

  lemma BytesOfLocal(l: Local)
    requires LocalAccepted(l)
    ensures SoundAll(LocalAtoms(l)) && AtomsBytes(LocalAtoms(l)) == LocalBytes(l)
  {
    hide TypeAtoms, TypeBytes, AtomsBytes, SoundAll, Accepted;
    BytesOfType(l.ofType);
    BytesOfPrefix(l.pointer, PTR, TypeAtoms(l.ofType));
    BytesOfPrefix(l.byRef, BYREF, PrefixAtoms(l.pointer, PTR) + TypeAtoms(l.ofType));
  }

  lemma {:induction false} BytesOfLocals(locals: seq<Local>)
    requires LocalsAccepted(locals)
    ensures SoundAll(LocalsAtoms(locals)) && AtomsBytes(LocalsAtoms(locals)) == LocalsBytes(locals)
    decreases |locals|
  {
    hide LocalAtoms, LocalBytes, LocalAccepted, Sound, AtomBytes;
    if locals != [] {
      BytesOfLocal(locals[0]);
      BytesOfLocals(locals[1..]);
      AtomsAppend(LocalAtoms(locals[0]), LocalsAtoms(locals[1..]));
    }
  }

  lemma BytesOfSignature(count: Number, locals: seq<Local>)
    requires IsNumber(count) && count.value == |locals| && LocalsAccepted(locals)
    ensures SoundAll(SignatureAtoms(count, locals))
    ensures AtomsBytes(SignatureAtoms(count, locals)) == LocalSigBytes(count, locals)
  {
    hide NumberBytes, LocalsAtoms, LocalsBytes, LocalsAccepted, AtomsBytes;
    BytesOfLocals(locals);
    TwoAtoms(Code(LOCAL_SIG), Num(count));
    AtomsAppend([Code(LOCAL_SIG), Num(count)], LocalsAtoms(locals));
    assert [LOCAL_SIG] + NumberBytes(count) + LocalsBytes(locals) == LocalSigBytes(count, locals);
  }

  // ---- Where the trailing bytes can begin ----

  predicate EndsIn(b: seq<byte>, s: seq<byte>) {
    |s| <= |b| && b[|b| - |s|..] == s
  }

  /** Byte q of the number of atom j is VALUETYPE, and everything after it are the bytes of state. */
  predicate BeginsInNumber(atoms: seq<Atom>, state: Number, j: nat, q: nat)
    requires SoundAll(atoms) && IsNumber(state) && j < |atoms|
  {
    && !atoms[j].Code? && q < atoms[j].n.width
    && NumberBytes(atoms[j].n)[q] == VALUETYPE
    && NumberBytes(atoms[j].n)[q + 1..] + AtomsBytes(atoms[j + 1..]) == NumberBytes(state)
  }

  /** A compressed number holds the VALUETYPE byte just where the bytes of state end the signature. */
  predicate InNumber(atoms: seq<Atom>, state: Number)
    requires SoundAll(atoms) && IsNumber(state)
  {
    exists j, q :: 0 <= j < |atoms| && 0 <= q < 4 && BeginsInNumber(atoms, state, j, q)
  }

  /** No number is the beginning of another. */
  lemma NumbersArePrefixFree(m: Number, n: Number, rest: seq<byte>)
    requires IsNumber(m) && IsNumber(n) && NumberBytes(m) + rest == NumberBytes(n)
    ensures m == n && rest == []
  {
    hide NumberBytes, ReadNumber;
    var b := NumberBytes(n);
    assert At(b, 0, b);
    assert At(b, 0, NumberBytes(m)) by {
      assert b[0..|NumberBytes(m)|] == NumberBytes(m);
    }
    ReadOfWritten(b, 0, m);
    ReadOfWritten(b, 0, n);
    assert |NumberBytes(m)| == |NumberBytes(n)|;
  }

  /** The tail of the atoms matches from inside the first one, at byte k of it. */
  lemma SplitWindow(a: seq<byte>, r: seq<byte>, state: seq<byte>)
    requires |r| <= |state| && a != []
    ensures var k := |a| + |r| - |state| - 1;
            EndsIn(a + r, [VALUETYPE] + state) <==> 0 <= k && a[k] == VALUETYPE && a[k + 1..] + r == state
  {
    var s, k := [VALUETYPE] + state, |a| + |r| - |state| - 1;
    if k >= 0 {
      assert (a + r)[|a + r| - |s|..] == a[k..] + r;
      assert a[k..] == [a[k]] + a[k + 1..];
      assert a[k..] + r == [a[k]] + (a[k + 1..] + r);
      assert s[0] == VALUETYPE && s[1..] == state;
      if a[k..] + r == s {
        assert ([a[k]] + (a[k + 1..] + r))[1..] == a[k + 1..] + r;
      }
    }
  }

  lemma LongTail(a: seq<byte>, r: seq<byte>, s: seq<byte>)
    requires |s| <= |r|
    ensures EndsIn(a + r, s) <==> EndsIn(r, s)
  {
    assert (a + r)[|a + r| - |s|..] == r[|r| - |s|..];
  }

  /** A number with the byte is in the first atom or in the others. */
  lemma InNumberStep(atoms: seq<Atom>, state: Number)
    requires SoundAll(atoms) && IsNumber(state) && atoms != [] && SoundAll(atoms[1..])
    ensures InNumber(atoms, state) <==>
      (exists q :: 0 <= q < 4 && BeginsInNumber(atoms, state, 0, q)) || InNumber(atoms[1..], state)
  {
    hide NumberBytes, AtomsBytes, SoundAll, IsNumber;
    var rest := atoms[1..];
    forall j, q | 0 <= j < |rest| && 0 <= q < 4
      ensures BeginsInNumber(rest, state, j, q) <==> BeginsInNumber(atoms, state, j + 1, q)
    {
      assert rest[j] == atoms[j + 1] && rest[j + 1..] == atoms[j + 2..];
    }
    if InNumber(atoms, state) {
      var j, q :| 0 <= j < |atoms| && 0 <= q < 4 && BeginsInNumber(atoms, state, j, q);
      if j > 0 {
        assert BeginsInNumber(rest, state, j - 1, q);
      }
    }
    if InNumber(rest, state) {
      var j, q :| 0 <= j < |rest| && 0 <= q < 4 && BeginsInNumber(rest, state, j, q);
      assert BeginsInNumber(atoms, state, j + 1, q);
    }
  }

  /** The trailing bytes begin inside the first atom: it is the state's value type itself, or its number is hit. */
  lemma WindowInFirst(atoms: seq<Atom>, state: Number)
    requires SoundAll(atoms) && IsNumber(state) && atoms != [] && SoundAll(atoms[1..])
    requires |AtomsBytes(atoms[1..])| <= state.width
    ensures EndsIn(AtomsBytes(atoms), [VALUETYPE] + NumberBytes(state)) <==>
      atoms == [ValueOf(state)] || exists q :: 0 <= q < 4 && BeginsInNumber(atoms, state, 0, q)
  {
    hide NumberBytes, AtomsBytes;
    SoundRest(atoms);
    var first, rest, n := atoms[0], AtomsBytes(atoms[1..]), NumberBytes(state);
    var a := AtomBytes(first);
    SplitWindow(a, rest, n);
    var k := |a| + |rest| - |n| - 1;
    if !first.Code? {
      var p := |a| - first.n.width;
      assert a[p..] == NumberBytes(first.n);
      if k >= p {
        assert a[k] == NumberBytes(first.n)[k - p] && a[k + 1..] == NumberBytes(first.n)[k - p + 1..];
        assert EndsIn(AtomsBytes(atoms), [VALUETYPE] + n) ==> BeginsInNumber(atoms, state, 0, k - p);
      }
      if 0 <= k < p && a[k] == VALUETYPE && a[k + 1..] + rest == n {
        assert k == p - 1;
        NumbersArePrefixFree(first.n, state, rest);
        assert atoms[1..] == [];
        assert atoms == [first];
      }
      forall q | 0 <= q < 4 && BeginsInNumber(atoms, state, 0, q) ensures q == k - p {
        assert |NumberBytes(first.n)[q + 1..] + rest| == |n|;
      }
    }
    if atoms == [ValueOf(state)] {
      assert atoms[1..] == [];
      NoAtoms();
      assert a[0] == VALUETYPE && a[1..] + rest == n;
    }
  }

  lemma NoAtoms()
    ensures AtomsBytes([]) == []
  {
  }

  /** The bytes end in those of the state's value type exactly when it comes last, or a number holds the byte. */
  lemma {:induction false} WindowExactly(atoms: seq<Atom>, state: Number)
    requires SoundAll(atoms) && IsNumber(state)
    ensures EndsIn(AtomsBytes(atoms), [VALUETYPE] + NumberBytes(state)) <==>
      (atoms != [] && atoms[|atoms| - 1] == ValueOf(state)) || InNumber(atoms, state)
    decreases |atoms|
  {
    hide NumberBytes, AtomsBytes, IsNumber, BeginsInNumber, EndsIn, InNumber, Sound;
    if atoms == [] {
      NoAtoms();
      NothingBegins(state);
      return;
    }
    var s, rest := [VALUETYPE] + NumberBytes(state), atoms[1..];
    SoundRest(atoms);
    InNumberStep(atoms, state);
    WindowExactly(rest, state);
    if |AtomsBytes(rest)| > state.width {
      LongTail(AtomBytes(atoms[0]), AtomsBytes(rest), s);
      BeginsLate(atoms, state);
      assert rest != [] by { NoAtoms(); }
    } else {
      WindowInFirst(atoms, state);
      TooShort(AtomsBytes(rest), s);
    }
  }

  lemma NothingBegins(state: Number)
    requires IsNumber(state)
    ensures !InNumber([], state) && !EndsIn([], [VALUETYPE] + NumberBytes(state))
  {
  }

  lemma TooShort(b: seq<byte>, s: seq<byte>)
    requires |b| < |s|
    ensures !EndsIn(b, s)
  {
  }

  lemma BeginsLate(atoms: seq<Atom>, state: Number)
    requires SoundAll(atoms) && IsNumber(state) && atoms != [] && |AtomsBytes(atoms[1..])| > state.width
    ensures forall q :: 0 <= q < 4 ==> !BeginsInNumber(atoms, state, 0, q)
  {
    hide NumberBytes, AtomsBytes;
  }

  // ---- The check ----

  /** The type that comes last in the bytes of a type. */
  function Trailing(t: SigType): (u: SigType)
    decreases t
  {
    match t
    case Vector(e) => Trailing(e)
    case Instance(_, _, _, args) => if args == [] then t else Trailing(args[|args| - 1])
    case _ => t
  }

  lemma {:induction false} LastOfType(t: SigType, state: Number)
    ensures var atoms := TypeAtoms(t);
            atoms[|atoms| - 1] == ValueOf(state) <==> Trailing(t) == ValueType(state)
    decreases t, 1
  {
    match t
    case Vector(e) =>
      LastOfType(e, state);
    case Instance(v, n, k, args) =>
      if args != [] {
        LastOfTypes(args, state);
      }
    case _ =>
  }

  lemma {:induction false} LastOfTypes(args: seq<SigType>, state: Number)
    requires args != []
    ensures var atoms := TypesAtoms(args);
            atoms[|atoms| - 1] == ValueOf(state) <==> Trailing(args[|args| - 1]) == ValueType(state)
    decreases args, 0
  {
    hide TypeAtoms;
    if |args| == 1 {
      LastOfType(args[0], state);
      assert TypesAtoms(args) == TypeAtoms(args[0]);
    } else {
      LastOfTypes(args[1..], state);
    }
  }

  lemma {:induction false} LastOfLocals(locals: seq<Local>, state: Number)
    requires locals != []
    ensures var atoms := LocalsAtoms(locals);
            atoms[|atoms| - 1] == ValueOf(state) <==> Trailing(locals[|locals| - 1].ofType) == ValueType(state)
    decreases |locals|
  {
    hide TypeAtoms, Trailing;
    if |locals| == 1 {
      LastOfType(locals[0].ofType, state);
      assert LocalsAtoms(locals) == LocalAtoms(locals[0]);
    } else {
      LastOfLocals(locals[1..], state);
    }
  }

  /**
   * For every local signature, the check fires exactly when the last local ends in the state's value type,
   * or a compressed number holds the VALUETYPE byte where the bytes after it are those of the state's token.
   */
  lemma RecognizedExactly(count: Number, locals: seq<Local>, t: Tokens)
    requires ValidTokens(t) && IsNumber(count) && count.value == |locals| && LocalsAccepted(locals)
    ensures SoundAll(SignatureAtoms(count, locals))
    ensures LooksRewritten(LocalSigBytes(count, locals), t) <==>
      || (locals != [] && Trailing(locals[|locals| - 1].ofType) == ValueType(t.state))
      || InNumber(SignatureAtoms(count, locals), t.state)
  {
    hide NumberBytes, LocalSigBytes, LocalsAtoms, SoundAll, LocalsAccepted, InNumber, AtomsBytes, Trailing, IsNumber;
    var b, atoms := LocalSigBytes(count, locals), SignatureAtoms(count, locals);
    BytesOfSignature(count, locals);
    WindowExactly(atoms, t.state);
    LooksMeansEnds(b, t);
    if locals != [] {
      LastOfLocals(locals, t.state);
      assert atoms[|atoms| - 1] == LocalsAtoms(locals)[|LocalsAtoms(locals)| - 1];
    } else {
      NoLocalAtoms();
    }
  }

  lemma NoLocalAtoms()
    ensures LocalsAtoms([]) == []
  {
  }

  lemma LooksMeansEnds(b: seq<byte>, t: Tokens)
    requires ValidTokens(t)
    ensures LooksRewritten(b, t) <==> EndsIn(b, [VALUETYPE] + NumberBytes(t.state))
  {
    hide NumberBytes;
    var n := t.state.width;
    var s := [VALUETYPE] + NumberBytes(t.state);
    if |b| > n {
      assert b[|b| - n - 1..] == [b[|b| - n - 1]] + b[|b| - n..];
      assert s[0] == VALUETYPE && s[1..] == NumberBytes(t.state);
    }
  }

  // ---- Signatures declined although they were never rewritten ----

  /**
   * A method whose only local is an array of the state type is declined, and so is one with a class local whose
   * token ends in the byte 0x11 and an unsigned int, when the state's token is the one byte 0x09, a type reference.
   */
  method DeclinesUnrewritten(t: Tokens, straddling: bool)
      returns (count: Number, locals: seq<Local>, r: Outcome)
    requires ValidTokens(t) && (straddling ==> t.state == Number(0x09, 1))
    ensures IsNumber(count) && count.value == |locals| && LocalsAccepted(locals)
    ensures r.Declined? && LooksRewritten(LocalSigBytes(count, locals), t)
    ensures locals != [] && locals[|locals| - 1] != LocalOf(ValueType(t.state))
    ensures straddling ==> Trailing(locals[|locals| - 1].ofType) != ValueType(t.state)
  {
    if straddling {
      locals, count := [LocalOf(ClassType(Number(0x111, 2))), LocalOf(Plain(0x09))], Number(2, 1);
      StraddlesTwoLocals(t, locals);
    } else {
      locals, count := [LocalOf(Vector(ValueType(t.state)))], Number(1, 1);
      UnrewrittenCanBeDeclined(t);
      assert Trailing(locals[0].ofType) == ValueType(t.state);
    }
    RecognizedExactly(count, locals, t);
    OldParts(LocalSigBytes(count, locals), count, locals);
    r := ModifyLocalSig(LocalSigBytes(count, locals), None, Base, t);
  }

  lemma OneLocalsAtoms(l: Local)
    ensures LocalsAtoms([l]) == LocalAtoms(l)
  {
    hide LocalAtoms;
    assert [l][1..] == [];
  }

  lemma StraddlesTwoLocals(t: Tokens, locals: seq<Local>)
    requires ValidTokens(t) && t.state == Number(0x09, 1)
    requires locals == [LocalOf(ClassType(Number(0x111, 2))), LocalOf(Plain(0x09))]
    ensures LocalsAccepted(locals) && SoundAll(SignatureAtoms(Number(2, 1), locals))
    ensures InNumber(SignatureAtoms(Number(2, 1), locals), t.state)
  {
    var count := Number(2, 1);
    var atoms := [Code(LOCAL_SIG), Num(count), Code(CLASS), Num(Number(0x111, 2)), Code(0x09)];
    OneLocalsAtoms(locals[1]);
    assert locals[1..] == [locals[1]];
    assert LocalsAtoms(locals) == LocalAtoms(locals[0]) + LocalAtoms(locals[1]);
    assert SignatureAtoms(count, locals) == atoms;
    assert atoms[4..] == [Code(0x09)];
    OneAtom(Code(0x09));
    assert BeginsInNumber(atoms, t.state, 3, 1);
  }
}
