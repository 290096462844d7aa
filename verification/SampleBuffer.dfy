/**
 * The writer of sample buffers. It stops for good at the first write that would take the buffer past its
 * limit; up to then the buffer is the ideal stream of everything recorded.
 */
module SampleBuffer {
  import opened Bytes
  import opened FunctionIdentifiers
  import opened SampleFormat

  const SAMPLES_BUFFER_MAXIMUM_SIZE: nat := 200 * 1024

  // ---------------------------------------------------------------- shifts

  /** The byte of v that lies above its low bits, 2^bits being unit. */
  function ByteAt(v: int, unit: int): byte
    requires unit > 0
  {
    v / unit % 256
  }

  lemma FarFromZero(p: int, d: int)
    requires p > 0
    ensures d >= 1 ==> p * d >= p
    ensures d <= -1 ==> p * d <= -p
  {
  }

  lemma QuotientIsUnique(n: int, p: int, q: int, r: int)
    requires 0 <= r < p && n == p * q + r
    ensures n / p == q
  {
    var d := n / p - q;
    assert p * d == r - n % p;
    FarFromZero(p, d);
  }

  /** Shifting twice is shifting by the sum. */
  lemma ShiftTwice(v: int, a: int, b: int)
    requires a > 0 && b > 0 && a * b > 0
    ensures v / a / b == v / (a * b)
  {
    var q, r := v / a / b, a * (v / a % b) + v % a;
    assert a * (v / a) == a * (b * q) + a * (v / a % b);
    assert a * (b * q) == a * b * q;
    assert a * (v / a % b) <= a * (b - 1) == a * b - a by {
      FarFromZero(a, b - v / a % b);
    }
    assert a * (v / a % b) >= 0;
    QuotientIsUnique(v, a * b, q, r);
  }

  lemma Nest3(x: seq<byte>, a: seq<byte>, b: seq<byte>, c: seq<byte>)
    ensures x + a + b + c == x + (a + (b + c))
  {
  }

  lemma Nest4(x: seq<byte>, a: seq<byte>, b: seq<byte>, c: seq<byte>, d: seq<byte>)
    ensures x + a + b + c + d == x + (a + (b + (c + d)))
  {
    Nest3(x + a, b, c, d);
    assert (x + a) + (b + (c + d)) == x + (a + (b + (c + d)));
  }

  lemma Nest6(x: seq<byte>, a: seq<byte>, b: seq<byte>, c: seq<byte>, d: seq<byte>, e: seq<byte>, f: seq<byte>)
    ensures x + a + b + c + d + e + f == x + (a + (b + (c + (d + (e + f)))))
  {
    Nest4(x + a + b, c, d, e, f);
    Nest3(x, a, b, c + (d + (e + f)));
  }

  lemma BigEndianStep(v: int, n: nat)
    ensures BigEndian(v, n + 1) == BigEndian(v / 256, n) + [v % 256]
  {
    var b := LittleEndian(v, n + 1);
    assert b[0] == v % 256 && b[1..] == LittleEndian(v / 256, n);
  }

  lemma ShortBytes(v: int)
    ensures BigEndian(v, 2) == [ByteAt(v, 0x100), ByteAt(v, 1)]
  {
    BigEndianStep(v, 1);
    BigEndianStep(v / 256, 0);
  }

  lemma IntBytes(v: int)
    ensures BigEndian(v, 4) == [ByteAt(v, 0x100_0000), ByteAt(v, 0x1_0000), ByteAt(v, 0x100), ByteAt(v, 1)]
  {
    BigEndianStep(v, 3);
    BigEndianStep(v / 256, 2);
    ShortBytes(v / 256 / 256);
  }

  lemma LongBytes(v: int)
    ensures BigEndian(v, 8) == [
              ByteAt(v, 0x100_0000_0000_0000), ByteAt(v, 0x1_0000_0000_0000), ByteAt(v, 0x100_0000_0000),
              ByteAt(v, 0x1_0000_0000), ByteAt(v, 0x100_0000), ByteAt(v, 0x1_0000), ByteAt(v, 0x100), ByteAt(v, 1)]
  {
    hide BigEndian;
    ShiftTwice(v, 0x100, 0x100);
    ShiftTwice(v, 0x1_0000, 0x100);
    ShiftTwice(v, 0x100_0000, 0x100);
    BigEndianStep(v, 7);
    BigEndianStep(v / 0x100, 6);
    BigEndianStep(v / 0x1_0000, 5);
    BigEndianStep(v / 0x100_0000, 4);
    var high := v / 0x1_0000_0000;
    IntBytes(high);
    ShiftTwice(v, 0x1_0000_0000, 0x100_0000);
    ShiftTwice(v, 0x1_0000_0000, 0x1_0000);
    ShiftTwice(v, 0x1_0000_0000, 0x100);
    assert ByteAt(high, 1) == ByteAt(v, 0x1_0000_0000);
  }

  // ---------------------------------------------------------------- the writer

  /** Codes count up from one and stay below the limit. */
  ghost predicate CodesInUse(codes: Codes) {
    |codes| < MAX_CODES_PER_BUFFER && forall f :: f in codes ==> 0 < codes[f] <= |codes|
  }

  lemma CodesStayInUse(codes: Codes, frame: FunctionIdentifier)
    requires CodesInUse(codes)
    ensures CodesInUse(CodesAfter(codes, frame))
  {
  }

  lemma StreamStep(codes: Codes, record: Record<FunctionIdentifier>, records: seq<Record<FunctionIdentifier>>,
                   names: Names, before: seq<byte>)
    ensures before + StreamBytes(codes, [record] + records, names)
         == (before + RecordBytes(codes, record, names)) + StreamBytes(CodesAfterRecord(codes, record), records, names)
  {
    hide RecordBytes, CodesAfterRecord;
    assert ([record] + records)[1..] == records;
  }

  type ThreadStack = (Header, seq<FunctionIdentifier>)

  /** The stacks that make a sample: those with frames. */
  function Samples(stacks: seq<ThreadStack>): seq<Record<FunctionIdentifier>> {
    if stacks == [] then []
    else (if stacks[0].1 == [] then [] else [Sample(stacks[0].0, stacks[0].1)]) + Samples(stacks[1..])
  }

  class ThreadSamplesBuffer {
    var codes: Codes
    var buffer: seq<byte>
    var overflowed: bool
    /** What a writer without limit would hold. */
    ghost var ideal: seq<byte>
    ghost var idealCodes: Codes

    ghost predicate Valid()
      reads this
    {
      && |buffer| <= SAMPLES_BUFFER_MAXIMUM_SIZE
      && CodesInUse(idealCodes)
      && (if overflowed then |ideal| > SAMPLES_BUFFER_MAXIMUM_SIZE && buffer <= ideal
          else buffer == ideal && codes == idealCodes)
    }

    constructor ()
      ensures Valid() && !overflowed && ideal == [] && idealCodes == map[]
    {
      codes, buffer, overflowed, ideal, idealCodes := map[], [], false, [], map[];
    }

    method CanWrite(byteCount: nat) returns (ok: bool)
      requires |buffer| <= SAMPLES_BUFFER_MAXIMUM_SIZE
      modifies `overflowed
      ensures ok <==> !old(overflowed) && |buffer| + byteCount <= SAMPLES_BUFFER_MAXIMUM_SIZE
      ensures overflowed == !ok
    {
      if overflowed || |buffer| > SAMPLES_BUFFER_MAXIMUM_SIZE || byteCount > SAMPLES_BUFFER_MAXIMUM_SIZE - |buffer| {
        overflowed := true;
        return false;
      }
      return true;
    }

    method WriteByte(b: byte)
      requires Valid()
      modifies `overflowed, `buffer, `ideal
      ensures Valid() && ideal == old(ideal) + [b]
    {
      ideal := ideal + [b];
      var ok := CanWrite(1);
      if ok {
        buffer := buffer + [b];
      }
    }

    method WriteShort(val: int16)
      requires Valid()
      modifies `overflowed, `buffer, `ideal
      ensures Valid() && ideal == old(ideal) + BigEndian(val, 2)
    {
      hide BigEndian;
      ideal := ideal + BigEndian(val, 2);
      var ok := CanWrite(2);
      if ok {
        ShortBytes(val);
        buffer := buffer + [ByteAt(val, 0x100), ByteAt(val, 1)];
      }
    }

    method WriteInt(val: int32)
      requires Valid()
      modifies `overflowed, `buffer, `ideal
      ensures Valid() && ideal == old(ideal) + BigEndian(val, 4)
    {
      hide BigEndian;
      ideal := ideal + BigEndian(val, 4);
      var ok := CanWrite(4);
      if ok {
        IntBytes(val);
        buffer := buffer + [ByteAt(val, 0x100_0000), ByteAt(val, 0x1_0000), ByteAt(val, 0x100), ByteAt(val, 1)];
      }
    }

    method WriteUInt64(val: uint64)
      requires Valid()
      modifies `overflowed, `buffer, `ideal
      ensures Valid() && ideal == old(ideal) + BigEndian(val, 8)
    {
      hide BigEndian;
      ideal := ideal + BigEndian(val, 8);
      var ok := CanWrite(8);
      if ok {
        LongBytes(val);
        buffer := buffer + [
          ByteAt(val, 0x100_0000_0000_0000), ByteAt(val, 0x1_0000_0000_0000), ByteAt(val, 0x100_0000_0000),
          ByteAt(val, 0x1_0000_0000), ByteAt(val, 0x100_0000), ByteAt(val, 0x1_0000), ByteAt(val, 0x100),
            ByteAt(val, 1)];
      }
    }

    /** A string is written whole or not at all. */
    method WriteString(s: seq<utf16>)
      requires Valid()
      modifies `overflowed, `buffer, `ideal
      ensures Valid() && ideal == old(ideal) + PrefixedString(s)
      ensures buffer == old(buffer) || buffer == old(buffer) + PrefixedString(s)
    {
      hide BigEndian, StringBytes;
      ghost var before := ideal;
      var usedLength := if |s| < MAX_STRING_LENGTH then |s| else MAX_STRING_LENGTH;
      var ok := CanWrite(2 + usedLength * 2);
      if ok {
        WriteShort(usedLength);
        buffer := buffer + StringBytes(s[..usedLength]);
        assert s[..usedLength] == Cut(s);
      }
      ideal := before + PrefixedString(s);
    }

    method WriteSpanContext(context: SpanContext)
      requires Valid()
      modifies `overflowed, `buffer, `ideal
      ensures Valid() && ideal == old(ideal) + ContextBytes(context)
    {
      hide BigEndian;
      WriteUInt64(context.traceIdHigh);
      WriteUInt64(context.traceIdLow);
      WriteUInt64(context.spanId);
    }

    /** A buffer that is full already takes no further record. */
    method Begin(ghost record: seq<byte>) returns (ok: bool)
      requires Valid() && |record| > 0
      modifies `overflowed, `ideal
      ensures if ok then Valid() && ideal == old(ideal) && !overflowed
              else Valid() && ideal == old(ideal) + record && overflowed
    {
      ok := CanWrite(1);
      if !ok {
        ideal := ideal + record;
      }
    }

    method StartBatch(time: uint64)
      requires Valid()
      modifies `overflowed, `buffer, `ideal
      ensures Valid() && ideal == old(ideal) + ([START_BATCH] + (BigEndian(BUFFER_VERSION, 4) + BigEndian(time, 8)))
    {
      hide BigEndian;
      var ok := Begin([START_BATCH] + (BigEndian(BUFFER_VERSION, 4) + BigEndian(time, 8)));
      if !ok {
        return;
      }
      WriteByte(START_BATCH);
      WriteInt(BUFFER_VERSION);
      WriteUInt64(time);
    }

    /** A record of a single byte: the start and end of a selected batch, and the end of a batch. */
    method WriteMarker(op: byte)
      requires Valid()
      modifies `overflowed, `buffer, `ideal
      ensures Valid() && ideal == old(ideal) + [op]
    {
      var ok := Begin([op]);
      if !ok {
        return;
      }
      WriteByte(op);
    }

    method StartSample(name: seq<utf16>, context: SpanContext)
      requires Valid()
      modifies `overflowed, `buffer, `ideal
      ensures Valid() && ideal == old(ideal) + HeaderBytes(Thread(name, context, None))
    {
      hide BigEndian, PrefixedString, ContextBytes;
      var ok := Begin(HeaderBytes(Thread(name, context, None)));
      if !ok {
        return;
      }
      WriteByte(START_SAMPLE);
      WriteString(name);
      WriteSpanContext(context);
    }

    method StartSampleForSelectedThread(time: uint64, name: seq<utf16>, context: SpanContext)
      requires Valid()
      modifies `overflowed, `buffer, `ideal
      ensures Valid() && ideal == old(ideal) + HeaderBytes(SelectedThread(time, name, context))
    {
      hide BigEndian, PrefixedString, ContextBytes;
      var ok := Begin(HeaderBytes(SelectedThread(time, name, context)));
      if !ok {
        return;
      }
      Nest4(ideal, [SELECTED_THREAD_SAMPLE], BigEndian(time, 8), PrefixedString(name), ContextBytes(context));
      WriteByte(SELECTED_THREAD_SAMPLE);
      WriteUInt64(time);
      WriteString(name);
      WriteSpanContext(context);
    }

    method AllocationSample(time: uint64, size: uint64, typeName: seq<utf16>, name: seq<utf16>, context: SpanContext)
      requires Valid()
      modifies `overflowed, `buffer, `ideal
      ensures Valid() && ideal == old(ideal) + HeaderBytes(Allocation(time, size, typeName, name, context))
    {
      hide BigEndian, PrefixedString, ContextBytes;
      var ok := Begin(HeaderBytes(Allocation(time, size, typeName, name, context)));
      if !ok {
        return;
      }
      Nest6(ideal, [ALLOCATION_SAMPLE], BigEndian(time, 8), BigEndian(size, 8), PrefixedString(typeName),
            PrefixedString(name), ContextBytes(context));
      WriteByte(ALLOCATION_SAMPLE);
      WriteUInt64(time);
      WriteUInt64(size);
      WriteString(typeName);
      WriteString(name);
      WriteSpanContext(context);
    }

    method MarkSelectedForFrequentSampling(value: bool)
      requires Valid()
      modifies `overflowed, `buffer, `ideal
      ensures Valid() && ideal == old(ideal) + MarkBytes(Some(value))
    {
      WriteMarker(if value then 1 else 0);
    }

    method RecordFrame(frame: FunctionIdentifier, name: seq<utf16>)
      requires Valid()
      modifies this
      ensures Valid() && ideal == old(ideal) + FrameBytes(old(idealCodes), frame, name)
      ensures idealCodes == CodesAfter(old(idealCodes), frame)
    {
      hide BigEndian, PrefixedString;
      ghost var bytes := FrameBytes(idealCodes, frame, name);
      ghost var codesAfter := CodesAfter(idealCodes, frame);
      CodesStayInUse(idealCodes, frame);
      var ok := Begin(bytes);
      if ok {
        WriteCodedFrameString(frame, name);
      }
      idealCodes := codesAfter;
    }

    method WriteCodedFrameString(frame: FunctionIdentifier, name: seq<utf16>)
      requires Valid() && !overflowed
      modifies this
      ensures Valid() && ideal == old(ideal) + FrameBytes(old(codes), frame, name)
      ensures codes == idealCodes == CodesAfter(old(codes), frame)
    {
      hide BigEndian, PrefixedString;
      CodesStayInUse(codes, frame);
      if frame in codes {
        WriteShort(codes[frame]);
      } else {
        var code := |codes| + 1;
        if |codes| + 1 < MAX_CODES_PER_BUFFER {
          codes := codes[frame := code];
          idealCodes := codes;
        }
        WriteShort(-code);
        WriteString(name);
      }
    }

    method EndSample()
      requires Valid()
      modifies `overflowed, `buffer, `ideal
      ensures Valid() && ideal == old(ideal) + BigEndian(0, 2)
    {
      var ok := Begin(BigEndian(0, 2));
      if !ok {
        return;
      }
      WriteShort(0);
    }

    method WriteFinalStats(micros: int32, threads: int32, frames: int32, misses: int32)
      requires Valid()
      modifies `overflowed, `buffer, `ideal
      ensures Valid() && ideal == old(ideal) + RecordBytes(map[], FinalStats(micros, threads, frames, misses), _ => [])
    {
      hide BigEndian;
      ghost var stats := BigEndian(micros, 4) + (BigEndian(threads, 4) + (BigEndian(frames, 4) + BigEndian(misses, 4)));
      var ok := Begin([FINAL_STATS] + stats);
      if !ok {
        return;
      }
      assert ideal + ([FINAL_STATS] + stats) == ideal + [FINAL_STATS] + stats;
      Nest4(ideal + [FINAL_STATS], BigEndian(micros, 4), BigEndian(threads, 4), BigEndian(frames, 4),
        BigEndian(misses, 4));
      WriteByte(FINAL_STATS);
      WriteInt(micros);
      WriteInt(threads);
      WriteInt(frames);
      WriteInt(misses);
    }

    /** The names of a stack's frames, in order. */
    method ResolveFrames(frames: seq<FunctionIdentifier>, names: Names)
      requires Valid()
      modifies this
      ensures Valid() && ideal == old(ideal) + FramesBytes(old(idealCodes), frames, names)
      ensures idealCodes == CodesAfterAll(old(idealCodes), frames)
    {
      hide FrameBytes, CodesAfter, CodesInUse;
      ghost var start, all := ideal, FramesBytes(idealCodes, frames, names);
      for i := 0 to |frames|
        invariant Valid()
        invariant ideal + FramesBytes(idealCodes, frames[i..], names) == start + all
        invariant CodesAfterAll(idealCodes, frames[i..]) == CodesAfterAll(old(idealCodes), frames)
      {
        assert frames[i..][0] == frames[i] && frames[i..][1..] == frames[i + 1..];
        RecordFrame(frames[i], names(frames[i]));
      }
    }

    method WriteHeader(header: Header)
      requires Valid()
      modifies `overflowed, `buffer, `ideal
      ensures Valid() && ideal == old(ideal) + HeaderBytes(header)
    {
      hide PrefixedString, ContextBytes, BigEndian;
      match header
      case Thread(name, context, mark) =>
        StartSample(name, context);
        if mark.Some? {
          MarkSelectedForFrequentSampling(mark.value);
        }
      case SelectedThread(time, name, context) =>
        StartSampleForSelectedThread(time, name, context);
      case Allocation(time, size, typeName, name, context) =>
        AllocationSample(time, size, typeName, name, context);
    }

    method WriteSample(header: Header, frames: seq<FunctionIdentifier>, names: Names)
      requires Valid()
      modifies this
      ensures Valid() && ideal == old(ideal) + RecordBytes(old(idealCodes), Sample(header, frames), names)
      ensures idealCodes == CodesAfterAll(old(idealCodes), frames)
    {
      hide HeaderBytes, FramesBytes, BigEndian, CodesInUse;
      WriteHeader(header);
      ResolveFrames(frames, names);
      EndSample();
    }

    /** One sample for every stack with frames; what comes next in the stream is left for later. */
    method WriteSamples(stacks: seq<ThreadStack>, names: Names, ghost next: seq<Record<FunctionIdentifier>>)
      requires Valid()
      modifies this
      ensures Valid()
      ensures ideal + StreamBytes(idealCodes, next, names)
           == old(ideal) + StreamBytes(old(idealCodes), Samples(stacks) + next, names)
    {
      hide StreamBytes, CodesInUse, RecordBytes, CodesAfterAll;
      ghost var start, all := ideal, StreamBytes(idealCodes, Samples(stacks) + next, names);
      for i := 0 to |stacks|
        invariant Valid()
        invariant ideal + StreamBytes(idealCodes, Samples(stacks[i..]) + next, names) == start + all
      {
        assert stacks[i..][0] == stacks[i] && stacks[i..][1..] == stacks[i + 1..];
        var (header, frames) := stacks[i];
        if frames != [] {
          ghost var rest := Samples(stacks[i + 1..]) + next;
          assert Samples(stacks[i..]) + next == [Sample(header, frames)] + rest;
          StreamStep(idealCodes, Sample(header, frames), rest, names, ideal);
          WriteSample(header, frames, names);
        } else {
          assert Samples(stacks[i..]) == Samples(stacks[i + 1..]);
        }
      }
      assert Samples(stacks[|stacks|..]) + next == next;
    }
  }

  /** Headers that belong in one kind of batch. */
  predicate AllMarkedAs(stacks: seq<ThreadStack>, marked: bool) {
    forall i :: 0 <= i < |stacks| ==> MarkedAs(stacks[i].0, marked)
  }

  lemma {:induction false} SamplesMarkedAs(stacks: seq<ThreadStack>, marked: bool)
    requires AllMarkedAs(stacks, marked)
    ensures forall i :: 0 <= i < |Samples(stacks)| ==> RecordMarkedAs(Samples(stacks)[i], marked)
    decreases |stacks|
  {
    hide MarkedAs;
    if stacks != [] {
      SamplesMarkedAs(stacks[1..], marked);
    }
  }

  /** What a full buffer and a readable one mean: too much was recorded, or everything reads back. */
  ghost predicate Published(out: ThreadSamplesBuffer, records: seq<Record<FunctionIdentifier>>, names: Names,
        marked: bool)
    reads out
  {
    && (out.overflowed <==> |StreamBytes(map[], records, names)| > SAMPLES_BUFFER_MAXIMUM_SIZE)
    && |out.buffer| <= SAMPLES_BUFFER_MAXIMUM_SIZE
    && out.buffer <= StreamBytes(map[], records, names)
    && (!out.overflowed ==>
          && out.buffer == StreamBytes(map[], records, names)
          && forall dictionary :: ReadStream(out.buffer, dictionary, marked) == Some(LegibleAll(records, names)))
  }

  lemma ReadableWhenWhole(out: ThreadSamplesBuffer, records: seq<Record<FunctionIdentifier>>, names: Names,
        marked: bool)
    requires out.Valid() && out.ideal == StreamBytes(map[], records, names)
    requires forall i :: 0 <= i < |records| ==> RecordMarkedAs(records[i], marked)
    ensures Published(out, records, names, marked)
  {
    hide StreamBytes, ReadStream, LegibleAll;
    forall dictionary
      ensures ReadStream(StreamBytes(map[], records, names), dictionary, marked) == Some(LegibleAll(records, names))
    {
      StreamBack(map[], records, names, dictionary, marked);
    }
  }

  /** The buffer of one capture of all threads. */
  method PublishAllThreads(time: uint64, stacks: seq<ThreadStack>, names: Names, selectiveSamplingEnabled: bool,
                           micros: int32, threads: int32, frames: int32, misses: int32)
    returns (out: ThreadSamplesBuffer)
    requires AllMarkedAs(stacks, selectiveSamplingEnabled)
    ensures fresh(out)
    ensures Published(out,
      [StartBatch(time)] + (Samples(stacks) + [EndBatch, FinalStats(micros, threads, frames, misses)]),
      names, selectiveSamplingEnabled)
  {
    hide StreamBytes, RecordBytes, ReadStream, Published, Samples, AllMarkedAs, RecordMarkedAs;
    ghost var stats := FinalStats(micros, threads, frames, misses);
    ghost var next := [EndBatch, stats];
    ghost var records := [StartBatch(time)] + (Samples(stacks) + next);
    out := new ThreadSamplesBuffer();
    StreamStep(map[], StartBatch(time), Samples(stacks) + next, names, []);
    StartOfBatch(map[], time, names);
    out.StartBatch(time);
    out.WriteSamples(stacks, names, next);
    EndOfBatch(out.idealCodes, stats, names, out.ideal);
    out.WriteMarker(END_BATCH);
    out.WriteFinalStats(micros, threads, frames, misses);
    MarkedBatch(stacks, StartBatch(time), next, selectiveSamplingEnabled);
    ReadableWhenWhole(out, records, names, selectiveSamplingEnabled);
  }

  lemma StartOfBatch(codes: Codes, time: uint64, names: Names)
    ensures RecordBytes(codes, StartBatch(time), names) ==
      [START_BATCH] + (BigEndian(BUFFER_VERSION, 4) + BigEndian(time, 8))
    ensures CodesAfterRecord(codes, StartBatch(time)) == codes
    ensures forall b: seq<byte> :: [] + b == b
  {
  }

  lemma EndOfBatch(codes: Codes, stats: Record<FunctionIdentifier>, names: Names, before: seq<byte>)
    requires stats.FinalStats?
    ensures before + StreamBytes(codes, [EndBatch, stats], names) ==
      before + [END_BATCH] + RecordBytes(map[], stats, _ => [])
  {
    hide BigEndian;
    var records := [EndBatch, stats];
    assert records[1..] == [stats] && [stats][1..] == [];
    assert StreamBytes(codes, [stats], names) == RecordBytes(codes, stats, names) + [];
  }

  lemma MarkedBatch(stacks: seq<ThreadStack>, first: Record<FunctionIdentifier>, next: seq<Record<FunctionIdentifier>>,
                    marked: bool)
    requires AllMarkedAs(stacks, marked)
    requires !first.Sample? && forall i :: 0 <= i < |next| ==> !next[i].Sample?
    ensures var records := [first] + (Samples(stacks) + next);
            forall i :: 0 <= i < |records| ==> RecordMarkedAs(records[i], marked)
  {
    hide Samples;
    SamplesMarkedAs(stacks, marked);
  }

  /** The buffer of one capture of the selected threads. */
  method PublishSelectedThreads(stacks: seq<ThreadStack>, names: Names) returns (out: ThreadSamplesBuffer)
    requires forall i :: 0 <= i < |stacks| ==> stacks[i].0.SelectedThread?
    ensures fresh(out)
    ensures Published(out, [StartSelectedThreadsBatch] + (Samples(stacks) + [EndSelectedThreadsBatch]), names, false)
  {
    hide StreamBytes, RecordBytes, ReadStream, Published, Samples, RecordMarkedAs;
    ghost var next := [EndSelectedThreadsBatch];
    ghost var records := [StartSelectedThreadsBatch] + (Samples(stacks) + next);
    out := new ThreadSamplesBuffer();
    StreamStep(map[], StartSelectedThreadsBatch, Samples(stacks) + next, names, []);
    SelectedBatch(map[], names, []);
    out.WriteMarker(SELECTED_THREADS_START_BATCH);
    out.WriteSamples(stacks, names, next);
    SelectedBatch(out.idealCodes, names, out.ideal);
    out.WriteMarker(SELECTED_THREADS_END_BATCH);
    MarkedBatch(stacks, StartSelectedThreadsBatch, next, false);
    ReadableWhenWhole(out, records, names, false);
  }

  lemma SelectedBatch(codes: Codes, names: Names, before: seq<byte>)
    ensures RecordBytes(codes, StartSelectedThreadsBatch, names) == [SELECTED_THREADS_START_BATCH]
    ensures CodesAfterRecord(codes, StartSelectedThreadsBatch) == codes
    ensures before + StreamBytes(codes, [EndSelectedThreadsBatch], names) == before + [SELECTED_THREADS_END_BATCH]
    ensures forall b: seq<byte> :: [] + b == b
  {
  }

  // ---------------------------------------------------------------- allocation samples

  /** One allocation sample, with the names its frames had when it was taken. */
  type Publication = (Record<FunctionIdentifier>, Names)

  /** Allocation samples one after the other, each with codes of its own. */
  ghost function AllocationBytes(held: seq<Publication>): seq<byte> {
    if held == [] then [] else RecordBytes(map[], held[0].0, held[0].1) + AllocationBytes(held[1..])
  }

  ghost function LegibleAllocations(held: seq<Publication>): seq<Record<seq<utf16>>> {
    if held == [] then [] else [Legible(held[0].0, held[0].1)] + LegibleAllocations(held[1..])
  }

  lemma {:induction false} AllocationBytesAppend(held: seq<Publication>, p: Publication)
    ensures AllocationBytes(held + [p]) == AllocationBytes(held) + RecordBytes(map[], p.0, p.1)
  {
    hide RecordBytes;
    if held == [] {
      assert [p][1..] == [] && held + [p] == [p];
    } else {
      AllocationBytesAppend(held[1..], p);
      assert (held + [p])[1..] == held[1..] + [p];
    }
  }

  /** Codes of one sample never reach into the next: the whole buffer reads back, from any dictionary. */
  lemma {:induction false} AllocationsReadBack(held: seq<Publication>, dictionary: Dictionary)
    requires forall i :: 0 <= i < |held| ==> RecordMarkedAs(held[i].0, false)
    ensures ReadStream(AllocationBytes(held), dictionary, false) == Some(LegibleAllocations(held))
    decreases |held|
  {
    hide RecordBytes, ReadRecord, RecordMarkedAs, Legible, CodesAfterRecord;
    if held != [] {
      var dictionary' := RecordBack(map[], held[0].0, held[0].1, dictionary, AllocationBytes(held[1..]), false);
      AllocationsReadBack(held[1..], dictionary');
    }
  }

  /** The buffer allocation samples are published to. */
  class AllocationBuffer {
    var bytes: seq<byte>
    ghost var held: seq<Publication>

    ghost predicate Valid()
      reads this
    {
      && bytes == AllocationBytes(held) && |bytes| < SAMPLES_BUFFER_MAXIMUM_SIZE
      && forall i :: 0 <= i < |held| ==> RecordMarkedAs(held[i].0, false)
    }

    constructor ()
      ensures Valid() && held == []
    {
      bytes, held := [], [];
    }

    /** AllocationSamplingAppendToBuffer. */
    method Append(sample: seq<byte>, ghost p: Publication)
      requires Valid() && RecordMarkedAs(p.0, false) && sample == RecordBytes(map[], p.0, p.1)
      modifies this
      ensures Valid()
      ensures held == if |old(bytes)| + |sample| < SAMPLES_BUFFER_MAXIMUM_SIZE then old(held) + [p] else old(held)
    {
      hide RecordBytes, AllocationBytes, RecordMarkedAs;
      if |sample| == 0 || |bytes| + |sample| >= SAMPLES_BUFFER_MAXIMUM_SIZE {
        SampleIsNotEmpty(p);
        return;
      }
      AllocationBytesAppend(held, p);
      bytes, held := bytes + sample, held + [p];
    }

    lemma SampleIsNotEmpty(p: Publication)
      requires RecordMarkedAs(p.0, false)
      ensures |RecordBytes(map[], p.0, p.1)| > 0
    {
      var _ := RecordBack(map[], p.0, p.1, map[], [], false);
    }

    /** AllocationSamplingConsumeAndReplaceBuffer: what the reader gets reads back to every sample held, if it fits. */
    method ConsumeAndReplace(len: int) returns (read: seq<byte>)
      requires Valid()
      modifies this
      ensures Valid()
      ensures len <= 0 ==> read == [] && held == old(held)
      ensures len > 0 ==> held == [] && read <= old(bytes)
      ensures len > 0 ==> |read| == if |old(bytes)| <= len then |old(bytes)| else len
      ensures 0 < len && |old(bytes)| <= len ==>
        forall dictionary :: ReadStream(read, dictionary, false) == Some(LegibleAllocations(old(held)))
    {
      hide AllocationBytes, LegibleAllocations, ReadStream, RecordMarkedAs;
      if len <= 0 {
        return [];
      }
      read := if |bytes| <= len then bytes else bytes[..len];
      forall dictionary
        ensures ReadStream(bytes, dictionary, false) == Some(LegibleAllocations(held))
      {
        AllocationsReadBack(held, dictionary);
      }
      bytes, held := [], [];
      NothingHeld();
    }

    lemma NothingHeld()
      ensures AllocationBytes([]) == []
    {
    }
  }

  /**
   * One allocation sample. It is dropped when the stack cannot be captured, when shutdown is requested, when
   * it overflows its own buffer, when publication is not admitted any more, and when target is full.
   */
  method PublishAllocation(target: AllocationBuffer, header: Header, frames: Option<seq<FunctionIdentifier>>,
        names: Names, cancelled: bool, admitted: bool)
    requires target.Valid() && header.Allocation?
    modifies target
    ensures target.Valid()
    ensures frames.None? || cancelled || !admitted ==> target.held == old(target.held)
    ensures frames.Some? && !cancelled && admitted ==>
      var sample := Sample(header, frames.value);
      target.held == if |old(target.bytes)| + |RecordBytes(map[], sample, names)| < SAMPLES_BUFFER_MAXIMUM_SIZE
        then old(target.held) + [(sample, names)] else old(target.held)
  {
    hide HeaderBytes, FramesBytes, BigEndian, CodesInUse, AllocationBytes;
    var out := new ThreadSamplesBuffer();
    out.WriteHeader(header);
    if frames.None? {
      return;
    }
    out.ResolveFrames(frames.value, names);
    if cancelled {
      return;
    }
    out.EndSample();
    if out.overflowed || !admitted {
      return;
    }
    target.Append(out.buffer, (Sample(header, frames.value), names));
  }
}
