/**
 * The format of sample buffers: one-byte operation codes, big-endian integers, length-prefixed UTF-16
 * strings and, for the frames of a sample, strings coded by their first use in the buffer.
 */
module SampleFormat {
  import opened Bytes
  import opened FunctionIdentifiers

  const MAX_STRING_LENGTH: nat := 512
  const MAX_CODES_PER_BUFFER: nat := 10 * 1000
  const BUFFER_VERSION: int32 := 1

  const START_BATCH: byte := 0x01
  const START_SAMPLE: byte := 0x02
  const END_BATCH: byte := 0x06
  const FINAL_STATS: byte := 0x07
  const ALLOCATION_SAMPLE: byte := 0x08
  const SELECTED_THREAD_SAMPLE: byte := 0x09
  const SELECTED_THREADS_START_BATCH: byte := 0x0A
  const SELECTED_THREADS_END_BATCH: byte := 0x0B

  type int16 = x: int | -0x8000 <= x < 0x8000
  type int32 = x: int | -0x8000_0000 <= x < 0x8000_0000
  type uint64 = x: int | 0 <= x < 0x1_0000_0000_0000_0000
  type utf16 = x: int | 0 <= x < 0x1_0000

  // ---------------------------------------------------------------- what a buffer says

  datatype SpanContext = SpanContext(traceIdHigh: uint64, traceIdLow: uint64, spanId: uint64)

  /** mark is present when selective sampling is enabled beside continuous sampling. */
  datatype Header =
    | Thread(name: seq<utf16>, context: SpanContext, mark: Option<bool>)
    | SelectedThread(time: uint64, name: seq<utf16>, context: SpanContext)
    | Allocation(time: uint64, size: uint64, typeName: seq<utf16>, name: seq<utf16>, context: SpanContext)

  /** A frame is an identifier before it is written and a name after it is read. */
  datatype Record<F> =
    | StartBatch(time: uint64)
    | StartSelectedThreadsBatch
    | Sample(header: Header, frames: seq<F>)
    | EndSelectedThreadsBatch
    | EndBatch
    | FinalStats(microsSuspended: int32, numThreads: int32, totalFrames: int32, nameCacheMisses: int32)

  type Names = FunctionIdentifier -> seq<utf16>

  function Cut(s: seq<utf16>): (r: seq<utf16>)
    ensures |r| <= MAX_STRING_LENGTH
  {
    if |s| <= MAX_STRING_LENGTH then s else s[..MAX_STRING_LENGTH]
  }

  function CutHeader(header: Header): Header {
    match header
    case Thread(name, context, mark) => Thread(Cut(name), context, mark)
    case SelectedThread(time, name, context) => SelectedThread(time, Cut(name), context)
    case Allocation(time, size, typeName, name, context) =>
      Allocation(time, size, Cut(typeName), Cut(name), context)
  }

  function CutNames(frames: seq<FunctionIdentifier>, names: Names): seq<seq<utf16>> {
    if frames == [] then [] else [Cut(names(frames[0]))] + CutNames(frames[1..], names)
  }

  /** What a reader is to make of a record: names for identifiers, all strings cut to the limit. */
  function Legible(record: Record<FunctionIdentifier>, names: Names): Record<seq<utf16>> {
    match record
    case StartBatch(time) => StartBatch(time)
    case StartSelectedThreadsBatch => StartSelectedThreadsBatch
    case Sample(header, frames) => Sample(CutHeader(header), CutNames(frames, names))
    case EndSelectedThreadsBatch => EndSelectedThreadsBatch
    case EndBatch => EndBatch
    case FinalStats(a, b, c, d) => FinalStats(a, b, c, d)
  }

  function LegibleAll(records: seq<Record<FunctionIdentifier>>, names: Names): seq<Record<seq<utf16>>> {
    if records == [] then [] else [Legible(records[0], names)] + LegibleAll(records[1..], names)
  }

  // ---------------------------------------------------------------- integers and strings

  function Reverse(b: seq<byte>): (r: seq<byte>)
    ensures |r| == |b|
  {
    if b == [] then [] else Reverse(b[1..]) + [b[0]]
  }

  lemma {:induction false} ReverseTwice(b: seq<byte>)
    ensures Reverse(Reverse(b)) == b
    decreases |b|
  {
    if b != [] {
      ReverseTwice(b[1..]);
      ReverseAppend(Reverse(b[1..]), b[0]);
      assert b == [b[0]] + b[1..];
    }
  }

  lemma {:induction false} ReverseAppend(b: seq<byte>, x: byte)
    ensures Reverse(b + [x]) == [x] + Reverse(b)
    decreases |b|
  {
    if b == [] {
      assert [x][1..] == [];
    } else {
      ReverseAppend(b[1..], x);
      assert (b + [x])[1..] == b[1..] + [x];
    }
  }

  function BigEndian(v: int, n: nat): (b: seq<byte>)
    ensures |b| == n
  {
    Reverse(LittleEndian(v, n))
  }

  function StringBytes(s: seq<utf16>): (b: seq<byte>)
    ensures |b| == 2 * |s|
  {
    if s == [] then [] else LittleEndian(s[0], 2) + StringBytes(s[1..])
  }

  /** A string as it is written: its length after the cut, then its code units in memory order. */
  function PrefixedString(s: seq<utf16>): seq<byte> {
    BigEndian(|Cut(s)|, 2) + StringBytes(Cut(s))
  }

  // ---------------------------------------------------------------- writing

  type Codes = map<FunctionIdentifier, nat>

  function FrameBytes(codes: Codes, frame: FunctionIdentifier, name: seq<utf16>): seq<byte> {
    if frame in codes then BigEndian(codes[frame], 2)
    else BigEndian(-(|codes| + 1), 2) + PrefixedString(name)
  }

  function CodesAfter(codes: Codes, frame: FunctionIdentifier): Codes {
    if frame !in codes && |codes| + 1 < MAX_CODES_PER_BUFFER then codes[frame := |codes| + 1] else codes
  }

  function FramesBytes(codes: Codes, frames: seq<FunctionIdentifier>, names: Names): seq<byte>
    decreases |frames|
  {
    if frames == [] then []
    else FrameBytes(codes, frames[0], names(frames[0])) + FramesBytes(CodesAfter(codes, frames[0]), frames[1..], names)
  }

  function CodesAfterAll(codes: Codes, frames: seq<FunctionIdentifier>): Codes
    decreases |frames|
  {
    if frames == [] then codes else CodesAfterAll(CodesAfter(codes, frames[0]), frames[1..])
  }

  function ContextBytes(context: SpanContext): seq<byte> {
    BigEndian(context.traceIdHigh, 8) + (BigEndian(context.traceIdLow, 8) + BigEndian(context.spanId, 8))
  }

  function MarkBytes(mark: Option<bool>): seq<byte> {
    match mark
    case None => []
    case Some(selected) => [if selected then 1 else 0]
  }

  function HeaderOp(header: Header): byte {
    match header
    case Thread(_, _, _) => START_SAMPLE
    case SelectedThread(_, _, _) => SELECTED_THREAD_SAMPLE
    case Allocation(_, _, _, _, _) => ALLOCATION_SAMPLE
  }

  function HeaderBody(header: Header): seq<byte> {
    match header
    case Thread(name, context, mark) => PrefixedString(name) + ContextBytes(context) + MarkBytes(mark)
    case SelectedThread(time, name, context) => BigEndian(time, 8) + (PrefixedString(name) + ContextBytes(context))
    case Allocation(time, size, typeName, name, context) =>
      BigEndian(time, 8) + (BigEndian(size, 8) +
        (PrefixedString(typeName) + (PrefixedString(name) + ContextBytes(context))))
  }

  function HeaderBytes(header: Header): seq<byte> {
    [HeaderOp(header)] + HeaderBody(header)
  }

  function RecordBytes(codes: Codes, record: Record<FunctionIdentifier>, names: Names): seq<byte> {
    match record
    case StartBatch(time) => [START_BATCH] + (BigEndian(BUFFER_VERSION, 4) + BigEndian(time, 8))
    case StartSelectedThreadsBatch => [SELECTED_THREADS_START_BATCH]
    case Sample(header, frames) => HeaderBytes(header) + (FramesBytes(codes, frames, names) + BigEndian(0, 2))
    case EndSelectedThreadsBatch => [SELECTED_THREADS_END_BATCH]
    case EndBatch => [END_BATCH]
    case FinalStats(a, b, c, d) =>
      [FINAL_STATS] + (BigEndian(a, 4) + (BigEndian(b, 4) + (BigEndian(c, 4) + BigEndian(d, 4))))
  }

  function CodesAfterRecord(codes: Codes, record: Record<FunctionIdentifier>): Codes {
    if record.Sample? then CodesAfterAll(codes, record.frames) else codes
  }

  /** The stream of records that a buffer without a size limit would hold. */
  function StreamBytes(codes: Codes, records: seq<Record<FunctionIdentifier>>, names: Names): seq<byte>
    decreases |records|
  {
    if records == [] then []
    else RecordBytes(codes, records[0], names) + StreamBytes(CodesAfterRecord(codes, records[0]), records[1..], names)
  }

  // ---------------------------------------------------------------- reading

  datatype Parsed<+T> = Malformed | Parsed(value: T, rest: seq<byte>)

  function ReadSigned(b: seq<byte>, n: nat): Parsed<int> {
    if |b| < n then Malformed else Parsed(Signed(Reverse(b[..n])), b[n..])
  }

  function ReadUnsigned64(b: seq<byte>): Parsed<uint64> {
    if |b| < 8 then Malformed else
      PowersOf256();
      Parsed(Unsigned(Reverse(b[..8])), b[8..])
  }

  function ReadInt32(b: seq<byte>): Parsed<int32> {
    if |b| < 4 then Malformed else
      PowersOf256();
      Parsed(Signed(Reverse(b[..4])), b[4..])
  }

  function Units(b: seq<byte>): seq<utf16>
    requires |b| % 2 == 0
  {
    if b == [] then [] else
      PowersOf256();
      [Unsigned(b[..2])] + Units(b[2..])
  }

  function ReadString(b: seq<byte>): Parsed<seq<utf16>> {
    match ReadSigned(b, 2)
    case Malformed => Malformed
    case Parsed(n, rest) =>
      if n < 0 || |rest| < 2 * n then Malformed else Parsed(Units(rest[..2 * n]), rest[2 * n..])
  }

  function ReadContext(b: seq<byte>): Parsed<SpanContext> {
    match ReadUnsigned64(b)
    case Malformed => Malformed
    case Parsed(high, b1) =>
      match ReadUnsigned64(b1)
      case Malformed => Malformed
      case Parsed(low, b2) =>
        match ReadUnsigned64(b2)
        case Malformed => Malformed
        case Parsed(spanId, b3) => Parsed(SpanContext(high, low, spanId), b3)
  }

  /** Strings by code. */
  type Dictionary = map<nat, seq<utf16>>

  datatype Frames = NoFrames | Frames(names: seq<seq<utf16>>, dictionary: Dictionary, rest: seq<byte>)

  function ReadFrames(b: seq<byte>, dictionary: Dictionary): Frames
    decreases |b|
  {
    match ReadSigned(b, 2)
    case Malformed => NoFrames
    case Parsed(code, rest) =>
      if code == 0 then Frames([], dictionary, rest)
      else if code > 0 then
        (if code !in dictionary then NoFrames else Prepended(dictionary[code], ReadFrames(rest, dictionary)))
      else
        match ReadString(rest)
        case Malformed => NoFrames
        case Parsed(name, rest') =>
          if |rest'| >= |b| then NoFrames
          else Prepended(name, ReadFrames(rest', dictionary[-code := name]))
  }

  function Prepended(name: seq<utf16>, frames: Frames): Frames {
    match frames
    case NoFrames => NoFrames
    case Frames(names, dictionary, rest) => Frames([name] + names, dictionary, rest)
  }

  function ReadNameAndContext(b: seq<byte>): Parsed<(seq<utf16>, SpanContext)> {
    match ReadString(b)
    case Malformed => Malformed
    case Parsed(name, b1) =>
      match ReadContext(b1)
      case Malformed => Malformed
      case Parsed(context, b2) => Parsed((name, context), b2)
  }

  /** The header after its operation code; marked says whether threads carry a mark. */
  function ReadHeader(op: byte, b: seq<byte>, marked: bool): Parsed<Header> {
    if op == START_SAMPLE then
      match ReadNameAndContext(b)
      case Malformed => Malformed
      case Parsed((name, context), rest) =>
        if !marked then Parsed(Thread(name, context, None), rest)
        else if rest == [] then Malformed
        else Parsed(Thread(name, context, Some(rest[0] != 0)), rest[1..])
    else if op == SELECTED_THREAD_SAMPLE then
      match ReadUnsigned64(b)
      case Malformed => Malformed
      case Parsed(time, b1) =>
        match ReadNameAndContext(b1)
        case Malformed => Malformed
        case Parsed((name, context), b2) => Parsed(SelectedThread(time, name, context), b2)
    else if op == ALLOCATION_SAMPLE then
      match ReadUnsigned64(b)
      case Malformed => Malformed
      case Parsed(time, b1) =>
        match ReadUnsigned64(b1)
        case Malformed => Malformed
        case Parsed(size, b2) =>
          match ReadString(b2)
          case Malformed => Malformed
          case Parsed(typeName, b3) =>
            match ReadNameAndContext(b3)
            case Malformed => Malformed
            case Parsed((name, context), b4) => Parsed(Allocation(time, size, typeName, name, context), b4)
    else Malformed
  }

  function ReadStats(b: seq<byte>): Parsed<Record<seq<utf16>>> {
    match ReadInt32(b)
    case Malformed => Malformed
    case Parsed(v1, b1) =>
      match ReadInt32(b1)
      case Malformed => Malformed
      case Parsed(v2, b2) =>
        match ReadInt32(b2)
        case Malformed => Malformed
        case Parsed(v3, b3) =>
          match ReadInt32(b3)
          case Malformed => Malformed
          case Parsed(v4, b4) => Parsed(FinalStats(v1, v2, v3, v4), b4)
  }

  datatype Reading = Unreadable | Reading(record: Record<seq<utf16>>, dictionary: Dictionary, rest: seq<byte>)

  function Same(parsed: Parsed<Record<seq<utf16>>>, dictionary: Dictionary): Reading {
    match parsed
    case Malformed => Unreadable
    case Parsed(record, rest) => Reading(record, dictionary, rest)
  }

  function ReadRecord(b: seq<byte>, dictionary: Dictionary, marked: bool): Reading {
    if b == [] then Unreadable
    else if b[0] == START_BATCH then
      match ReadInt32(b[1..])
      case Malformed => Unreadable
      case Parsed(version, b1) =>
        if version != BUFFER_VERSION then Unreadable
        else
          match ReadUnsigned64(b1)
          case Malformed => Unreadable
          case Parsed(time, b2) => Reading(StartBatch(time), dictionary, b2)
    else if b[0] == SELECTED_THREADS_START_BATCH then Reading(StartSelectedThreadsBatch, dictionary, b[1..])
    else if b[0] == SELECTED_THREADS_END_BATCH then Reading(EndSelectedThreadsBatch, dictionary, b[1..])
    else if b[0] == END_BATCH then Reading(EndBatch, dictionary, b[1..])
    else if b[0] == FINAL_STATS then Same(ReadStats(b[1..]), dictionary)
    else
      match ReadHeader(b[0], b[1..], marked)
      case Malformed => Unreadable
      case Parsed(header, b1) =>
        match ReadFrames(b1, dictionary)
        case NoFrames => Unreadable
        case Frames(names, dictionary', b2) => Reading(Sample(header, names), dictionary', b2)
  }

  function ReadStream(b: seq<byte>, dictionary: Dictionary, marked: bool): Option<seq<Record<seq<utf16>>>>
    decreases |b|
  {
    if b == [] then Some([])
    else
      match ReadRecord(b, dictionary, marked)
      case Unreadable => None
      case Reading(record, dictionary', rest) =>
        if |rest| >= |b| then None
        else
          match ReadStream(rest, dictionary', marked)
          case None => None
          case Some(records) => Some([record] + records)
  }

  // ---------------------------------------------------------------- what was written is read back

  lemma SignedBack(v: int, n: nat, rest: seq<byte>)
    requires InRange(v, n)
    ensures ReadSigned(BigEndian(v, n) + rest, n) == Parsed(v, rest)
  {
    hide Reverse, LittleEndian, Signed;
    var b := BigEndian(v, n) + rest;
    assert b[..n] == BigEndian(v, n) && b[n..] == rest;
    ReverseTwice(LittleEndian(v, n));
    SignedOfLittleEndian(v, n);
  }

  lemma Int16Back(v: int16, rest: seq<byte>)
    ensures ReadSigned(BigEndian(v, 2) + rest, 2) == Parsed(v, rest)
  {
    hide BigEndian;
    PowersOf256();
    SignedBack(v, 2, rest);
  }

  lemma Int32Back(v: int32, rest: seq<byte>)
    ensures ReadInt32(BigEndian(v, 4) + rest) == Parsed(v, rest)
  {
    hide BigEndian;
    PowersOf256();
    SignedBack(v, 4, rest);
  }

  lemma UnsignedBack(v: nat, n: nat)
    requires v < Pow256(n)
    ensures Unsigned(LittleEndian(v, n)) == v
  {
    hide LittleEndian, Unsigned, Pow256;
    var k := UnsignedOfLittleEndian(v, n);
    var u := Unsigned(LittleEndian(v, n));
    ProductOrder(k, 1, Pow256(n));
    ProductOrder(k, -1, Pow256(n));
  }

  lemma Unsigned64Back(v: uint64, rest: seq<byte>)
    ensures ReadUnsigned64(BigEndian(v, 8) + rest) == Parsed(v, rest)
  {
    hide Reverse, LittleEndian, Unsigned;
    var b := BigEndian(v, 8) + rest;
    assert b[..8] == BigEndian(v, 8) && b[8..] == rest;
    ReverseTwice(LittleEndian(v, 8));
    PowersOf256();
    UnsignedBack(v, 8);
  }

  lemma {:induction false} UnitsBack(s: seq<utf16>)
    ensures Units(StringBytes(s)) == s
    decreases |s|
  {
    if s != [] {
      hide LittleEndian, Unsigned;
      var b := StringBytes(s);
      assert b[..2] == LittleEndian(s[0], 2) && b[2..] == StringBytes(s[1..]);
      PowersOf256();
      UnsignedBack(s[0], 2);
      UnitsBack(s[1..]);
    }
  }

  lemma StringBack(s: seq<utf16>, rest: seq<byte>)
    ensures ReadString(PrefixedString(s) + rest) == Parsed(Cut(s), rest)
  {
    hide BigEndian, StringBytes, Units, Cut;
    var b := StringBytes(Cut(s));
    assert PrefixedString(s) + rest == BigEndian(|Cut(s)|, 2) + (b + rest);
    Int16Back(|Cut(s)|, b + rest);
    assert (b + rest)[..|b|] == b && (b + rest)[|b|..] == rest;
    UnitsBack(Cut(s));
  }

  lemma ContextBack(context: SpanContext, rest: seq<byte>)
    ensures ReadContext(ContextBytes(context) + rest) == Parsed(context, rest)
  {
    hide BigEndian, ReadUnsigned64;
    var b3 := BigEndian(context.spanId, 8) + rest;
    var b2 := BigEndian(context.traceIdLow, 8) + b3;
    assert ContextBytes(context) + rest == BigEndian(context.traceIdHigh, 8) + b2;
    Unsigned64Back(context.traceIdHigh, b2);
    Unsigned64Back(context.traceIdLow, b3);
    Unsigned64Back(context.spanId, rest);
  }

  lemma NameAndContextBack(name: seq<utf16>, context: SpanContext, rest: seq<byte>)
    ensures ReadNameAndContext((PrefixedString(name) + ContextBytes(context)) + rest) ==
      Parsed((Cut(name), context), rest)
  {
    hide PrefixedString, ContextBytes, ReadString, ReadContext, Cut;
    assert (PrefixedString(name) + ContextBytes(context)) + rest ==
      PrefixedString(name) + (ContextBytes(context) + rest);
    StringBack(name, ContextBytes(context) + rest);
    ContextBack(context, rest);
  }

  /** marked tells the reader whether the writer marks threads. */
  predicate MarkedAs(header: Header, marked: bool) {
    header.Thread? ==> header.mark.Some? == marked
  }

  lemma HeaderBack(header: Header, rest: seq<byte>, marked: bool)
    requires MarkedAs(header, marked)
    ensures ReadHeader(HeaderOp(header), HeaderBody(header) + rest, marked) == Parsed(CutHeader(header), rest)
  {
    hide PrefixedString, ContextBytes, ReadString, ReadNameAndContext, ReadUnsigned64, Cut, BigEndian;
    var b := HeaderBody(header) + rest;
    match header
    case Thread(name, context, mark) =>
      var b1 := MarkBytes(mark) + rest;
      assert b == (PrefixedString(name) + ContextBytes(context)) + b1;
      NameAndContextBack(name, context, b1);
      if mark.Some? {
        assert b1[1..] == rest;
      } else {
        assert b1 == rest;
      }
    case SelectedThread(time, name, context) =>
      var b1 := (PrefixedString(name) + ContextBytes(context)) + rest;
      assert b == BigEndian(time, 8) + b1;
      Unsigned64Back(time, b1);
      NameAndContextBack(name, context, rest);
    case Allocation(time, size, typeName, name, context) =>
      var b3 := (PrefixedString(name) + ContextBytes(context)) + rest;
      var b2 := PrefixedString(typeName) + b3;
      var b1 := BigEndian(size, 8) + b2;
      assert b == BigEndian(time, 8) + b1;
      Unsigned64Back(time, b1);
      Unsigned64Back(size, b2);
      StringBack(typeName, b3);
      NameAndContextBack(name, context, rest);
  }

  /** The writer's codes are those the reader has seen defined, for the same strings. */
  ghost predicate Agree(codes: Codes, dictionary: Dictionary, names: Names) {
    && |codes| < MAX_CODES_PER_BUFFER
    && forall f :: f in codes ==>
         0 < codes[f] <= |codes| && codes[f] in dictionary && dictionary[codes[f]] == Cut(names(f))
  }

  /** A code that is larger than all others is new to the dictionary too, or runs over the limit. */
  lemma AgreeAfter(codes: Codes, frame: FunctionIdentifier, names: Names, dictionary: Dictionary)
    requires Agree(codes, dictionary, names) && frame !in codes
    ensures Agree(CodesAfter(codes, frame), dictionary[|codes| + 1 := Cut(names(frame))], names)
  {
    hide Cut;
  }

  lemma DefinitionBack(code: int, name: seq<utf16>, dictionary: Dictionary, rest: seq<byte>)
    requires 0 < code <= MAX_CODES_PER_BUFFER
    ensures ReadFrames(BigEndian(-code, 2) + PrefixedString(name) + rest, dictionary)
         == Prepended(Cut(name), ReadFrames(rest, dictionary[code := Cut(name)]))
  {
    hide BigEndian, PrefixedString, ReadSigned, ReadString, Cut, Prepended;
    var b := BigEndian(-code, 2) + PrefixedString(name) + rest;
    assert b == BigEndian(-code, 2) + (PrefixedString(name) + rest);
    Int16Back(-code, PrefixedString(name) + rest);
    StringBack(name, rest);
  }

  lemma CodeBack(code: nat, dictionary: Dictionary, rest: seq<byte>)
    requires 0 < code < MAX_CODES_PER_BUFFER && code in dictionary
    ensures ReadFrames(BigEndian(code, 2) + rest, dictionary) ==
      Prepended(dictionary[code], ReadFrames(rest, dictionary))
  {
    hide BigEndian, ReadSigned, ReadString, Prepended;
    Int16Back(code, rest);
  }

  /** One frame, whether its name is coded already, gets a code now, or comes after the codes have run out. */
  lemma {:induction false} FrameBack(codes: Codes, frame: FunctionIdentifier, names: Names, dictionary: Dictionary,
        rest: seq<byte>)
    returns (dictionary': Dictionary)
    requires Agree(codes, dictionary, names)
    ensures Agree(CodesAfter(codes, frame), dictionary', names)
    ensures ReadFrames(FrameBytes(codes, frame, names(frame)) + rest, dictionary)
         == Prepended(Cut(names(frame)), ReadFrames(rest, dictionary'))
  {
    hide BigEndian, PrefixedString, ReadFrames, Prepended, Cut;
    if frame in codes {
      dictionary' := dictionary;
      CodeBack(codes[frame], dictionary, rest);
    } else {
      dictionary' := dictionary[|codes| + 1 := Cut(names(frame))];
      AgreeAfter(codes, frame, names, dictionary);
      DefinitionBack(|codes| + 1, names(frame), dictionary, rest);
    }
  }

  lemma {:induction false} FramesBack(codes: Codes, frames: seq<FunctionIdentifier>, names: Names,
                                      dictionary: Dictionary, rest: seq<byte>)
    returns (dictionary': Dictionary)
    requires Agree(codes, dictionary, names)
    ensures Agree(CodesAfterAll(codes, frames), dictionary', names)
    ensures ReadFrames(FramesBytes(codes, frames, names) + (BigEndian(0, 2) + rest), dictionary)
         == Frames(CutNames(frames, names), dictionary', rest)
    decreases |frames|
  {
    hide BigEndian, ReadSigned, FrameBytes, CodesAfter, Agree, Cut;
    var end := BigEndian(0, 2) + rest;
    if frames == [] {
      dictionary' := dictionary;
      assert FramesBytes(codes, frames, names) + end == end;
      Int16Back(0, rest);
    } else {
      var codes1 := CodesAfter(codes, frames[0]);
      var b1 := FramesBytes(codes1, frames[1..], names) + end;
      assert FramesBytes(codes, frames, names) + end == FrameBytes(codes, frames[0], names(frames[0])) + b1;
      var dictionary1 := FrameBack(codes, frames[0], names, dictionary, b1);
      dictionary' := FramesBack(codes1, frames[1..], names, dictionary1, rest);
    }
  }

  lemma StatsBack(a: int32, b: int32, c: int32, d: int32, rest: seq<byte>)
    ensures ReadStats((BigEndian(a, 4) + (BigEndian(b, 4) + (BigEndian(c, 4) + BigEndian(d, 4)))) + rest)
         == Parsed(FinalStats(a, b, c, d), rest)
  {
    hide BigEndian, ReadInt32;
    var b3 := BigEndian(d, 4) + rest;
    var b2 := BigEndian(c, 4) + b3;
    var b1 := BigEndian(b, 4) + b2;
    assert (BigEndian(a, 4) + (BigEndian(b, 4) + (BigEndian(c, 4) + BigEndian(d, 4)))) + rest == BigEndian(a, 4) + b1;
    Int32Back(a, b1);
    Int32Back(b, b2);
    Int32Back(c, b3);
    Int32Back(d, rest);
  }

  lemma BatchBack(time: uint64, rest: seq<byte>)
    ensures var b := (BigEndian(BUFFER_VERSION, 4) + BigEndian(time, 8)) + rest;
            ReadInt32(b) == Parsed(BUFFER_VERSION, BigEndian(time, 8) + rest)
            && ReadUnsigned64(BigEndian(time, 8) + rest) == Parsed(time, rest)
  {
    hide BigEndian, ReadInt32, ReadUnsigned64;
    assert (BigEndian(BUFFER_VERSION, 4) + BigEndian(time, 8)) + rest ==
      BigEndian(BUFFER_VERSION, 4) + (BigEndian(time, 8) + rest);
    Int32Back(BUFFER_VERSION, BigEndian(time, 8) + rest);
    Unsigned64Back(time, rest);
  }

  predicate RecordMarkedAs(record: Record<FunctionIdentifier>, marked: bool) {
    record.Sample? ==> MarkedAs(record.header, marked)
  }

  lemma SampleBack(codes: Codes, header: Header, frames: seq<FunctionIdentifier>, names: Names,
                   dictionary: Dictionary, rest: seq<byte>, marked: bool)
    returns (dictionary': Dictionary)
    requires Agree(codes, dictionary, names) && MarkedAs(header, marked)
    ensures Agree(CodesAfterAll(codes, frames), dictionary', names)
    ensures ReadRecord(RecordBytes(codes, Sample(header, frames), names) + rest, dictionary, marked)
         == Reading(Sample(CutHeader(header), CutNames(frames, names)), dictionary', rest)
  {
    hide BigEndian, HeaderBody, FramesBytes, ReadHeader, ReadFrames, Agree, CutHeader, MarkedAs;
    var b2 := FramesBytes(codes, frames, names) + (BigEndian(0, 2) + rest);
    var b := RecordBytes(codes, Sample(header, frames), names) + rest;
    assert b[1..] == HeaderBody(header) + b2;
    HeaderBack(header, b2, marked);
    dictionary' := FramesBack(codes, frames, names, dictionary, rest);
  }

  lemma RecordBack(codes: Codes, record: Record<FunctionIdentifier>, names: Names,
                   dictionary: Dictionary, rest: seq<byte>, marked: bool)
    returns (dictionary': Dictionary)
    requires Agree(codes, dictionary, names) && RecordMarkedAs(record, marked)
    ensures Agree(CodesAfterRecord(codes, record), dictionary', names)
    ensures ReadRecord(RecordBytes(codes, record, names) + rest, dictionary, marked)
         == Reading(Legible(record, names), dictionary', rest)
    ensures |RecordBytes(codes, record, names)| > 0
  {
    hide BigEndian, ReadRecord, HeaderBody, FramesBytes, CutHeader, CutNames, CodesAfterAll, Agree, MarkedAs;
    match record
    case Sample(header, frames) =>
      dictionary' := SampleBack(codes, header, frames, names, dictionary, rest, marked);
    case StartBatch(time) =>
      dictionary' := dictionary;
      StartBatchBack(time, dictionary, rest, marked);
    case FinalStats(v1, v2, v3, v4) =>
      dictionary' := dictionary;
      FinalStatsBack(v1, v2, v3, v4, dictionary, rest, marked);
    case _ =>
      dictionary' := dictionary;
      MarkersBack(dictionary, rest, marked);
  }

  lemma StartBatchBack(time: uint64, dictionary: Dictionary, rest: seq<byte>, marked: bool)
    ensures ReadRecord([START_BATCH] + (BigEndian(BUFFER_VERSION, 4) + BigEndian(time, 8)) + rest, dictionary, marked)
         == Reading(StartBatch(time), dictionary, rest)
  {
    hide BigEndian, ReadInt32, ReadUnsigned64, ReadHeader, ReadFrames, ReadStats;
    var tail := (BigEndian(BUFFER_VERSION, 4) + BigEndian(time, 8)) + rest;
    assert [START_BATCH] + (BigEndian(BUFFER_VERSION, 4) + BigEndian(time, 8)) + rest == [START_BATCH] + tail;
    assert ([START_BATCH] + tail)[1..] == tail;
    BatchBack(time, rest);
  }

  lemma FinalStatsBack(a: int32, b: int32, c: int32, d: int32, dictionary: Dictionary, rest: seq<byte>, marked: bool)
    ensures
      ReadRecord([FINAL_STATS] + (BigEndian(a, 4) + (BigEndian(b, 4) + (BigEndian(c, 4) + BigEndian(d, 4)))) + rest,
        dictionary, marked) == Reading(FinalStats(a, b, c, d), dictionary, rest)
  {
    hide BigEndian, ReadInt32, ReadUnsigned64, ReadHeader, ReadFrames, ReadStats;
    var body := BigEndian(a, 4) + (BigEndian(b, 4) + (BigEndian(c, 4) + BigEndian(d, 4)));
    assert [FINAL_STATS] + body + rest == [FINAL_STATS] + (body + rest);
    assert ([FINAL_STATS] + (body + rest))[1..] == body + rest;
    StatsBack(a, b, c, d, rest);
  }

  lemma MarkersBack(dictionary: Dictionary, rest: seq<byte>, marked: bool)
    ensures ReadRecord([SELECTED_THREADS_START_BATCH] + rest, dictionary, marked)
         == Reading(StartSelectedThreadsBatch, dictionary, rest)
    ensures ReadRecord([SELECTED_THREADS_END_BATCH] + rest, dictionary, marked)
         == Reading(EndSelectedThreadsBatch, dictionary, rest)
    ensures ReadRecord([END_BATCH] + rest, dictionary, marked) == Reading(EndBatch, dictionary, rest)
  {
    hide ReadInt32, ReadUnsigned64, ReadHeader, ReadFrames, ReadStats;
    assert forall op: byte :: ([op] + rest)[1..] == rest;
  }

  /**
   * Reading a stream of records gives their names back, cut to the length limit, whatever the reader's
   * dictionary held before: past the code limit, and for streams appended to other streams.
   */
  lemma {:induction false} StreamBack(codes: Codes, records: seq<Record<FunctionIdentifier>>, names: Names,
                                      dictionary: Dictionary, marked: bool)
    requires Agree(codes, dictionary, names)
    requires forall i :: 0 <= i < |records| ==> RecordMarkedAs(records[i], marked)
    ensures ReadStream(StreamBytes(codes, records, names), dictionary, marked) == Some(LegibleAll(records, names))
    decreases |records|
  {
    hide RecordBytes, ReadRecord, Agree, RecordMarkedAs, Legible, CodesAfterRecord;
    if records != [] {
      var codes1 := CodesAfterRecord(codes, records[0]);
      var rest := StreamBytes(codes1, records[1..], names);
      var dictionary1 := RecordBack(codes, records[0], names, dictionary, rest, marked);
      StreamBack(codes1, records[1..], names, dictionary1, marked);
    }
  }
}
