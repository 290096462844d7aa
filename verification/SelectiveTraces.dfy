/**
 * The traces selected for frequent sampling. Their deadlines are looked at only from the time of the
 * next scan on, which the sampling thread keeps at the earliest deadline it has seen.
 */
module SelectiveTraces {

  const MAX_TRACES: nat := 50
  /** Times are nanoseconds of the steady clock; deadlines are stored in milliseconds. */
  const MILLISECOND: nat := 1_000_000
  const MAX_AGE: nat := 15 * 60 * 1000 * MILLISECOND

  datatype TraceContext = TraceContext(traceIdHigh: nat, traceIdLow: nat)

  type Deadlines = map<TraceContext, nat>

  /** The deadline, in milliseconds, of a trace started at a time. */
  function Deadline(now: nat): (d: nat)
    ensures now + MAX_AGE - MILLISECOND < d * MILLISECOND <= now + MAX_AGE
    ensures now % MILLISECOND == 0 ==> d * MILLISECOND == now + MAX_AGE
    ensures forall t: nat :: t % MILLISECOND == 0 && t <= now + MAX_AGE ==> t <= d * MILLISECOND
  {
    Truncate(now + MAX_AGE);
    (now + MAX_AGE) / MILLISECOND
  }

  lemma Truncate(t: nat)
    ensures t - MILLISECOND < (t / MILLISECOND) * MILLISECOND <= t
    ensures forall u: nat :: u % MILLISECOND == 0 && u <= t ==> u <= (t / MILLISECOND) * MILLISECOND
  {
  }

  predicate Expired(deadline: nat, now: nat) {
    now >= deadline * MILLISECOND
  }

  // ---------------------------------------------------------------- the eager reference

  datatype Op = Start(context: TraceContext, now: nat) | Stop(context: TraceContext) | Enable(now: nat)
    | Check(now: nat)

  function Purged(traces: Deadlines, now: nat): Deadlines {
    map t | t in traces && !Expired(traces[t], now) :: traces[t]
  }

  /** What every operation does to the traces when each check looks at all deadlines. */
  function EagerStep(traces: Deadlines, op: Op): Deadlines {
    match op
    case Start(context, now) => if |traces| >= MAX_TRACES then traces else traces[context := Deadline(now)]
    case Stop(context) => traces - {context}
    case Enable(_) => traces
    case Check(now) => Purged(traces, now)
  }

  function Eager(ops: seq<Op>): Deadlines {
    if ops == [] then map[] else EagerStep(Eager(ops[..|ops| - 1]), ops[|ops| - 1])
  }

  function Time(op: Op, clock: nat): nat {
    if op.Stop? then clock else op.now
  }

  /** The clock never runs backwards. */
  ghost predicate Ordered(ops: seq<Op>, clock: nat) {
    ops != [] ==> clock <= Time(ops[0], clock) && Ordered(ops[1..], Time(ops[0], clock))
  }

  predicate WholeMilliseconds(op: Op) {
    !op.Stop? ==> op.now % MILLISECOND == 0
  }

  // ---------------------------------------------------------------- lazy expiry

  /** No scan is due after a deadline. */
  ghost predicate Tight(traces: Deadlines, nextScan: nat, clock: nat) {
    nextScan <= clock || forall t :: t in traces ==> nextScan <= traces[t] * MILLISECOND
  }

  /** No scan is due a millisecond or more after a deadline. */
  ghost predicate Near(traces: Deadlines, nextScan: nat, clock: nat) {
    nextScan <= clock || forall t :: t in traces ==> nextScan < traces[t] * MILLISECOND + MILLISECOND
  }

  /** What a check at now leaves when it scans only if a scan is due. */
  function Scanned(traces: Deadlines, nextScan: nat, now: nat): Deadlines {
    if nextScan <= now then Purged(traces, now) else traces
  }

  /** Tightness is all it takes, and no less, for every later check to find all expired traces. */
  lemma TightMeansEager(traces: Deadlines, nextScan: nat, clock: nat)
    ensures Tight(traces, nextScan, clock) <==>
            forall now: nat :: clock <= now ==> Scanned(traces, nextScan, now) == Purged(traces, now)
  {
    if Tight(traces, nextScan, clock) {
      forall now: nat | clock <= now
        ensures Scanned(traces, nextScan, now) == Purged(traces, now)
      {
        if now < nextScan {
          assert Purged(traces, now) == traces;
        }
      }
    } else {
      var t :| t in traces && traces[t] * MILLISECOND < nextScan;
      var now := if clock <= traces[t] * MILLISECOND then traces[t] * MILLISECOND else clock;
      assert Scanned(traces, nextScan, now) == traces;
      assert t !in Purged(traces, now);
    }
  }

  class SelectiveSampling {
    var traces: Deadlines
    var nextOutdatedEntriesScan: nat
    /** The latest time any operation has seen. */
    ghost var clock: nat

    ghost predicate Valid()
      reads this
    {
      && |traces| <= MAX_TRACES
      && nextOutdatedEntriesScan <= clock + MAX_AGE
      && Near(traces, nextOutdatedEntriesScan, clock)
    }

    ghost predicate Prompt()
      reads this
    {
      Tight(traces, nextOutdatedEntriesScan, clock)
    }

    constructor ()
      ensures Valid() && Prompt() && traces == map[] && nextOutdatedEntriesScan == 0 && clock == 0
    {
      traces, nextOutdatedEntriesScan, clock := map[], 0, 0;
    }

    /** Adding a trace keeps expiry prompt exactly when its truncated deadline does not precede the next scan. */
    method TryAddSelectiveSamplingTrace(context: TraceContext, now: nat) returns (added: bool)
      requires Valid() && clock <= now
      modifies `traces, `clock
      ensures Valid() && clock == now
      ensures added <==> |old(traces)| < MAX_TRACES
      ensures traces == EagerStep(old(traces), Start(context, now))
      ensures old(Prompt()) ==>
                (Prompt() <==> !added || nextOutdatedEntriesScan <= now
                               || nextOutdatedEntriesScan <= Deadline(now) * MILLISECOND)
    {
      clock := now;
      if |traces| >= MAX_TRACES {
        return false;
      }
      ghost var before := traces;
      traces := traces[context := Deadline(now)];
      assert traces.Keys == before.Keys + {context};
      assert context in traces && traces[context] == Deadline(now);
      return true;
    }

    method RemoveSelectiveSamplingTrace(context: TraceContext)
      requires Valid()
      modifies `traces
      ensures Valid() && (old(Prompt()) ==> Prompt())
      ensures traces == old(traces) - {context}
    {
      ghost var before := traces;
      traces := traces - {context};
      FewerKeys(traces, before);
    }

    /** Selective sampling has been switched on again. */
    method Reenable(now: nat)
      requires Valid() && clock <= now
      modifies `nextOutdatedEntriesScan, `clock
      ensures Valid() && Prompt() && clock == now && nextOutdatedEntriesScan == now
    {
      nextOutdatedEntriesScan, clock := now, now;
    }

    method HasActiveSelectiveSamplingEntries(now: nat) returns (active: bool)
      requires Valid() && clock <= now
      modifies this
      ensures Valid() && clock == now && (old(Prompt()) ==> Prompt())
      ensures active <==> traces != map[]
      ensures traces == Scanned(old(traces), old(nextOutdatedEntriesScan), now)
      // Nothing goes early, nothing stays a millisecond too long.
      ensures forall t :: t in old(traces) && !Expired(old(traces)[t], now) ==> t in traces
      ensures forall t :: t in traces ==>
                (t in old(traces) && traces[t] == old(traces)[t] && now < traces[t] * MILLISECOND + MILLISECOND)
      ensures old(Prompt()) ==> traces == Purged(old(traces), now)
      ensures if old(nextOutdatedEntriesScan) <= now
              then nextOutdatedEntriesScan == now + MAX_AGE
                   || exists t :: t in traces && nextOutdatedEntriesScan == traces[t] * MILLISECOND
              else nextOutdatedEntriesScan == old(nextOutdatedEntriesScan)
    {
      clock := now;
      if nextOutdatedEntriesScan <= now {
        Scan(now);
      }
      return traces != map[];
    }

    method Scan(now: nat)
      requires |traces| <= MAX_TRACES
      modifies `traces, `nextOutdatedEntriesScan
      ensures |traces| <= MAX_TRACES && traces == Purged(old(traces), now)
      ensures nextOutdatedEntriesScan <= now + MAX_AGE && Tight(traces, nextOutdatedEntriesScan, now)
      ensures nextOutdatedEntriesScan == now + MAX_AGE
           || exists t :: t in traces && nextOutdatedEntriesScan == traces[t] * MILLISECOND
    {
      var nextScan := now + MAX_AGE;
      var todo := traces.Keys;
      while todo != {}
        invariant todo <= traces.Keys <= old(traces).Keys
        invariant forall t :: t in traces ==> traces[t] == old(traces)[t]
        invariant forall t :: t in old(traces) && t !in todo ==> (t in traces <==> !Expired(old(traces)[t], now))
        invariant forall t :: t in traces && t !in todo ==> nextScan <= traces[t] * MILLISECOND
        invariant nextScan <= now + MAX_AGE
        invariant nextScan == now + MAX_AGE
               || exists t :: t in traces && t !in todo && nextScan == traces[t] * MILLISECOND
        decreases |todo|
      {
        var t :| t in todo;
        todo := todo - {t};
        var deadline := traces[t] * MILLISECOND;
        if now >= deadline {
          traces := traces - {t};
        } else if deadline < nextScan {
          nextScan := deadline;
        }
      }
      FewerKeys(traces, old(traces));
      nextOutdatedEntriesScan := nextScan;
    }

    /**
     * Any interleaving of operations with whole-millisecond timestamps: the traces are those that
     * purging at every check would keep.
     */
    method Run(ops: seq<Op>)
      requires traces == map[] && nextOutdatedEntriesScan == 0 && clock == 0
      requires Ordered(ops, clock)
      requires WholeStarts(ops) || WholeChecks(ops)
      modifies this
      ensures Valid() && traces == Eager(ops)
      ensures |Eager(ops)| <= MAX_TRACES
    {
      hide Deadline, EagerStep, Purged, Scanned;
      for i := 0 to |ops|
        invariant Valid() && Prompt()
        invariant Ordered(ops[i..], clock)
        invariant WholeChecks(ops) ==> nextOutdatedEntriesScan % MILLISECOND == 0 || nextOutdatedEntriesScan <= clock
        invariant traces == Eager(ops[..i])
      {
        assert ops[i..][0] == ops[i] && ops[i..][1..] == ops[i + 1..];
        assert ops[..i + 1][..i] == ops[..i];
        Step(ops[i], WholeStarts(ops), WholeChecks(ops));
      }
      assert ops[..|ops|] == ops;
    }

    /** One operation with suitable timestamps. */
    method Step(op: Op, ghost wholeStarts: bool, ghost wholeChecks: bool)
      requires Valid() && Prompt() && clock <= Time(op, clock)
      requires wholeStarts || wholeChecks
      requires wholeStarts && op.Start? ==> WholeMilliseconds(op)
      requires wholeChecks && op.Check? ==> WholeMilliseconds(op)
      requires wholeChecks ==> nextOutdatedEntriesScan % MILLISECOND == 0 || nextOutdatedEntriesScan <= clock
      modifies this
      ensures Valid() && Prompt() && clock == Time(op, old(clock))
      ensures wholeChecks ==> nextOutdatedEntriesScan % MILLISECOND == 0 || nextOutdatedEntriesScan <= clock
      ensures traces == EagerStep(old(traces), op)
    {
      hide Near, Tight, Purged, Scanned;
      match op
      case Start(context, now) =>
        var added := TryAddSelectiveSamplingTrace(context, now);
      case Stop(context) =>
        RemoveSelectiveSamplingTrace(context);
      case Enable(now) =>
        Reenable(now);
      case Check(now) =>
        var active := HasActiveSelectiveSamplingEntries(now);
    }
  }

  /** A check, a start in the same half millisecond, and a check a quarter of a millisecond past the deadline. */
  function EarlyStart(context: TraceContext): seq<Op> {
    [Check(MILLISECOND / 2), Start(context, MILLISECOND / 2), Check(MAX_AGE + MILLISECOND / 4)]
  }

  /** An eager run of these operations drops the trace: its deadline was truncated to the 15 minutes. */
  lemma EagerDropsEarlyStart(context: TraceContext)
    ensures Ordered(EarlyStart(context), 0) && Deadline(MILLISECOND / 2) * MILLISECOND == MAX_AGE
    ensures Eager(EarlyStart(context)) == map[]
  {
    var ops := EarlyStart(context);
    assert ops[..2] == [ops[0], ops[1]] && ops[..2][..1] == [ops[0]] && [ops[0]][..0] == [];
    assert Eager([ops[0]]) == map[];
    assert Eager(ops[..2]) == map[context := Deadline(MILLISECOND / 2)];
    assert Eager(ops) == Purged(Eager(ops[..2]), MAX_AGE + MILLISECOND / 4);
    assert ops[1..] == [ops[1], ops[2]] && [ops[1], ops[2]][1..] == [ops[2]] && [ops[2]][1..] == [];
    assert Ordered([ops[2]], MILLISECOND / 2);
    assert Ordered([ops[1], ops[2]], MILLISECOND / 2);
  }

  /** Sub-millisecond timestamps do part the two: run lazily, the same operations still hold the trace. */
  method LazyOutlivesEager(context: TraceContext) returns (held: Deadlines)
    ensures Eager(EarlyStart(context)) == map[]
    ensures held == map[context := Deadline(MILLISECOND / 2)]
  {
    hide Eager;
    EagerDropsEarlyStart(context);
    var sampling := new SelectiveSampling();
    var active := sampling.HasActiveSelectiveSamplingEntries(MILLISECOND / 2);
    assert sampling.traces == map[] && sampling.nextOutdatedEntriesScan == MILLISECOND / 2 + MAX_AGE;
    var added := sampling.TryAddSelectiveSamplingTrace(context, MILLISECOND / 2);
    active := sampling.HasActiveSelectiveSamplingEntries(MAX_AGE + MILLISECOND / 4);
    held := sampling.traces;
  }

  ghost predicate WholeStarts(ops: seq<Op>) {
    forall i :: 0 <= i < |ops| && ops[i].Start? ==> WholeMilliseconds(ops[i])
  }

  ghost predicate WholeChecks(ops: seq<Op>) {
    forall i :: 0 <= i < |ops| && ops[i].Check? ==> WholeMilliseconds(ops[i])
  }

  lemma FewerKeys(a: Deadlines, b: Deadlines)
    requires a.Keys <= b.Keys
    ensures |a| <= |b|
  {
    assert b.Keys == a.Keys + (b.Keys - a.Keys);
  }
}
