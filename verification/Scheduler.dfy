/**
 * The sampling thread: it waits for its interval under the configuration it last took from the
 * mailbox, and decides for every cycle whether all threads or only the selected ones are sampled.
 * The methods of SamplingThread are the steps between two releases of the configuration's mutex.
 */
module Scheduler {
  import opened Bytes

  type uint32 = x: int | 0 <= x < 0x1_0000_0000

  datatype SamplingType = Continuous | SelectedThreads

  datatype ThreadSamplingConfiguration =
    ThreadSamplingConfiguration(cpuInterval: uint32, selectiveInterval: uint32, version: nat)
  {
    predicate CpuEnabled() {
      cpuInterval != 0
    }

    predicate SelectiveEnabled() {
      selectiveInterval != 0
    }

    predicate IsEnabled() {
      CpuEnabled() || SelectiveEnabled()
    }

    predicate BothEnabled() {
      CpuEnabled() && SelectiveEnabled()
    }

    /** What the thread waits before every cycle. */
    function SchedulingInterval(): uint32 {
      if SelectiveEnabled() then selectiveInterval else cpuInterval
    }

    /** The pairs of intervals that the runtime sampler service commits. */
    predicate Admissible() {
      BothEnabled() ==> cpuInterval > selectiveInterval && cpuInterval % selectiveInterval == 0
    }
  }

  function GetNextSamplingType(configuration: ThreadSamplingConfiguration, iteration: uint32): SamplingType {
    if !configuration.SelectiveEnabled() then Continuous
    else if !configuration.CpuEnabled() then SelectedThreads
    else
      var ratio := configuration.cpuInterval / configuration.selectiveInterval;
      if iteration != ratio then SelectedThreads else Continuous
  }

  // ---------------------------------------------------------------- the schedule a run must follow

  /** One admitted cycle, with the configuration that was the latest staged one at that moment. */
  datatype Cycle = Cycle(configuration: ThreadSamplingConfiguration, latest: ThreadSamplingConfiguration,
                         samplingType: SamplingType, iteration: uint32)

  function Count(cycles: seq<Cycle>, version: nat): (n: nat)
  {
    if cycles == [] then 0
    else Count(cycles[..|cycles| - 1], version)
         + if cycles[|cycles| - 1].configuration.version == version then 1 else 0
  }

  /**
   * With both kinds enabled, every how many cycles all threads are sampled: the ratio of the intervals,
   * or, when that is zero, once each time the 32-bit iteration counter wraps.
   */
  function Period(configuration: ThreadSamplingConfiguration): (p: nat)
    requires configuration.BothEnabled()
    ensures 0 < p <= TWO_TO_THE_32
    ensures configuration.cpuInterval >= configuration.selectiveInterval ==>
              p == configuration.cpuInterval / configuration.selectiveInterval
  {
    var ratio := configuration.cpuInterval / configuration.selectiveInterval;
    if ratio == 0 then TWO_TO_THE_32 else ratio
  }

  /** What the n-th cycle under a configuration has to sample. */
  function Prescribed(configuration: ThreadSamplingConfiguration, n: nat): SamplingType {
    if configuration.BothEnabled() then (if n % Period(configuration) == 0 then Continuous else SelectedThreads)
    else if configuration.CpuEnabled() then Continuous
    else SelectedThreads
  }

  /** The n-th cycle under its configuration. */
  predicate OnSchedule(cycle: Cycle, n: nat) {
    && cycle.configuration.IsEnabled()
    && cycle.latest == cycle.configuration
    && cycle.samplingType == Prescribed(cycle.configuration, n)
    && (
      var c := cycle.configuration;
      c.BothEnabled() && c.cpuInterval >= c.selectiveInterval ==>
        0 < cycle.iteration <= c.cpuInterval / c.selectiveInterval)
  }

  ghost predicate Paced(cycles: seq<Cycle>) {
    forall i :: 0 <= i < |cycles| ==>
      OnSchedule(cycles[i], Count(cycles[..i + 1], cycles[i].configuration.version))
  }

  /** The iteration counter after n cycles under a configuration. */
  function Counter(configuration: ThreadSamplingConfiguration, n: nat): (c: uint32)
    ensures n == 0 ==> c == 0
  {
    if configuration.BothEnabled() then n % Period(configuration) else 0
  }

  /** The counter before a cycle, one step on, gives the prescribed type and then the counter after it. */
  lemma {:induction false} DecisionIsPrescribed(configuration: ThreadSamplingConfiguration, n: nat)
    requires n > 0 && configuration.IsEnabled()
    ensures configuration.BothEnabled() ==>
              var iteration := Wrap32(Counter(configuration, n - 1) + 1);
              && GetNextSamplingType(configuration, iteration) == Prescribed(configuration, n)
              && Counter(configuration, n) == (if Prescribed(configuration, n) == Continuous then 0 else iteration)
              && (configuration.cpuInterval >= configuration.selectiveInterval ==>
                    0 < iteration <= configuration.cpuInterval / configuration.selectiveInterval)
    ensures !configuration.BothEnabled() ==> GetNextSamplingType(configuration, 0) == Prescribed(configuration, n)
  {
    if configuration.BothEnabled() {
      NextRemainder(n - 1, Period(configuration));
      IntervalRatio(configuration);
    }
  }

  lemma NextRemainder(n: nat, p: nat)
    requires p > 0
    ensures (n + 1) % p == if n % p + 1 == p then 0 else n % p + 1
  {
    if n % p + 1 == p {
      RemainderIsUnique(n + 1, n / p + 1, 0, p);
    } else {
      RemainderIsUnique(n + 1, n / p, n % p + 1, p);
    }
  }

  lemma ProductIsFarFromZero(p: int, d: int)
    requires p > 0
    ensures d >= 1 ==> p * d >= p
    ensures d <= -1 ==> p * d <= -p
  {
  }

  lemma RemainderIsUnique(n: nat, q: int, r: int, p: nat)
    requires 0 <= r < p && n == p * q + r
    ensures n % p == r
  {
    var d := n / p - q;
    assert p * d == r - n % p;
    ProductIsFarFromZero(p, d);
  }

  lemma IntervalRatio(configuration: ThreadSamplingConfiguration)
    requires configuration.BothEnabled()
    ensures configuration.cpuInterval >= configuration.selectiveInterval <==>
            configuration.cpuInterval / configuration.selectiveInterval > 0
    ensures configuration.cpuInterval / configuration.selectiveInterval < TWO_TO_THE_32
  {
  }

  lemma {:induction false} NoneCounted(cycles: seq<Cycle>, version: nat)
    requires forall i :: 0 <= i < |cycles| ==> cycles[i].configuration.version < version
    ensures Count(cycles, version) == 0
    decreases |cycles|
  {
    if cycles != [] {
      NoneCounted(cycles[..|cycles| - 1], version);
    }
  }

  lemma {:induction false} PacedStep(cycles: seq<Cycle>, cycle: Cycle)
    requires Paced(cycles)
    requires OnSchedule(cycle, Count(cycles, cycle.configuration.version) + 1)
    ensures Paced(cycles + [cycle])
    ensures Count(cycles + [cycle], cycle.configuration.version) == Count(cycles, cycle.configuration.version) + 1
  {
    hide OnSchedule;
    var longer := cycles + [cycle];
    assert longer[..|cycles|] == cycles && longer[..|cycles| + 1] == longer;
    forall i | 0 <= i < |longer|
      ensures OnSchedule(longer[i], Count(longer[..i + 1], longer[i].configuration.version))
    {
      if i < |cycles| {
        assert longer[..i + 1] == cycles[..i + 1];
      }
    }
  }

  lemma {:induction false} CountBound(cycles: seq<Cycle>, i: nat)
    requires i < |cycles|
    ensures 0 < Count(cycles[..i + 1], cycles[i].configuration.version) <= i + 1
  {
    assert cycles[..i + 1][..i] == cycles[..i];
    CountIsAtMost(cycles[..i], cycles[i].configuration.version);
  }

  lemma {:induction false} CountIsAtMost(cycles: seq<Cycle>, version: nat)
    ensures Count(cycles, version) <= |cycles|
    decreases |cycles|
  {
    if cycles != [] {
      CountIsAtMost(cycles[..|cycles| - 1], version);
    }
  }

  /**
   * A selective interval longer than the CPU one makes the ratio zero, and no cycle of any run
   * shorter than 2^32 cycles samples all threads.
   */
  lemma {:induction false} StarvedWhenSelectiveIsSlower(cycles: seq<Cycle>, i: nat)
    requires Paced(cycles) && i < |cycles| < TWO_TO_THE_32
    requires cycles[i].configuration.BothEnabled()
    ensures cycles[i].configuration.cpuInterval < cycles[i].configuration.selectiveInterval ==>
              cycles[i].samplingType == SelectedThreads
  {
    var configuration := cycles[i].configuration;
    var n := Count(cycles[..i + 1], configuration.version);
    CountBound(cycles, i);
    assert OnSchedule(cycles[i], n);
    if configuration.cpuInterval < configuration.selectiveInterval {
      IntervalRatio(configuration);
      RemainderIsUnique(n, 0, n, TWO_TO_THE_32);
    }
  }

  // ---------------------------------------------------------------- the CPU interval kept

  /**
   * All threads are sampled in the cycles that end a multiple of the CPU interval after the configuration
   * was taken up, and in no others: the n-th cycle ends n scheduling intervals after it.
   */
  ghost predicate OnTime(configuration: ThreadSamplingConfiguration) {
    forall n: nat :: n > 0 ==> (Prescribed(configuration, n).Continuous? <==> Due(configuration, n))
  }

  predicate Due(configuration: ThreadSamplingConfiguration, n: nat) {
    configuration.CpuEnabled() && n * configuration.SchedulingInterval() % configuration.cpuInterval == 0
  }

  /** Precisely the pairs in which the CPU interval is a multiple of the selective one are on time. */
  lemma OnTimeExactly(configuration: ThreadSamplingConfiguration)
    requires configuration.IsEnabled()
    ensures OnTime(configuration) <==>
      (configuration.BothEnabled() ==> configuration.cpuInterval % configuration.selectiveInterval == 0)
  {
    hide Prescribed, Due, Period;
    if configuration.BothEnabled() {
      var cpu, selective := configuration.cpuInterval, configuration.selectiveInterval;
      if cpu % selective == 0 {
        forall n: nat | n > 0 ensures Prescribed(configuration, n).Continuous? <==> Due(configuration, n) {
          DueOfMultiple(configuration, n);
        }
      } else {
        var n := LateCycle(configuration);
      }
    } else {
      forall n: nat | n > 0 ensures Prescribed(configuration, n).Continuous? <==> Due(configuration, n) {
        DueWithOneKind(configuration, n);
      }
    }
  }

  lemma DueWithOneKind(configuration: ThreadSamplingConfiguration, n: nat)
    requires configuration.IsEnabled() && !configuration.BothEnabled()
    ensures Prescribed(configuration, n).Continuous? <==> Due(configuration, n)
  {
    if configuration.CpuEnabled() {
      RemainderIsUnique(n * configuration.cpuInterval, n, 0, configuration.cpuInterval);
    }
  }

  lemma DueOfMultiple(configuration: ThreadSamplingConfiguration, n: nat)
    requires configuration.BothEnabled() && configuration.cpuInterval % configuration.selectiveInterval == 0
    ensures Prescribed(configuration, n).Continuous? <==> Due(configuration, n)
  {
    var cpu, selective := configuration.cpuInterval, configuration.selectiveInterval;
    AtLeastOnce(cpu, selective);
    ScaledRemainder(n, cpu / selective, selective);
  }

  lemma AtLeastOnce(cpu: nat, selective: nat)
    requires cpu > 0 && selective > 0 && cpu % selective == 0
    ensures cpu >= selective && cpu / selective > 0 && cpu == cpu / selective * selective
  {
  }

  lemma ScaledRemainder(n: nat, p: nat, d: nat)
    requires p > 0 && d > 0
    ensures p * d > 0 && (n * d % (p * d) == 0 <==> n % p == 0)
  {
    var q, r := n / p, n % p;
    ProductIsPositive(p, d);
    calc {
      n * d;
      (p * q + r) * d;
      (p * d) * q + r * d;
    }
    SmallerProduct(r, p, d);
    RemainderIsUnique(n * d, q, r * d, p * d);
  }

  lemma ProductIsPositive(p: nat, d: nat)
    requires p > 0 && d > 0
    ensures p * d > 0
  {
  }

  lemma SmallerProduct(r: nat, p: nat, d: nat)
    requires r < p && d > 0
    ensures 0 <= r * d < p * d && (r * d == 0 <==> r == 0)
  {
    assert (p - r) * d > 0;
    assert p * d - r * d == (p - r) * d;
    if r > 0 {
      ProductIsPositive(r, d);
    }
  }

  /** Without a whole ratio the schedule and the clock part: early after one period, or far too late. */
  lemma LateCycle(configuration: ThreadSamplingConfiguration) returns (n: nat)
    requires configuration.BothEnabled() && configuration.cpuInterval % configuration.selectiveInterval != 0
    ensures n > 0 && !(Prescribed(configuration, n).Continuous? <==> Due(configuration, n))
  {
    hide Prescribed, Due;
    var cpu, selective := configuration.cpuInterval, configuration.selectiveInterval;
    if cpu > selective {
      n := Period(configuration);
      ShortProduct(cpu, selective);
      PrescribedAt(configuration, n, 1, 0);
      DueAt(configuration, n);
    } else {
      n := cpu;
      MultipleOf(cpu, selective);
      IntervalRatio(configuration);
      PrescribedAt(configuration, n, 0, n);
      DueAt(configuration, n);
    }
  }

  lemma PrescribedAt(configuration: ThreadSamplingConfiguration, n: nat, q: nat, r: nat)
    requires configuration.BothEnabled() && n == Period(configuration) * q + r && r < Period(configuration)
    ensures Prescribed(configuration, n).Continuous? <==> r == 0
  {
    hide Period;
    RemainderIsUnique(n, q, r, Period(configuration));
  }

  lemma DueAt(configuration: ThreadSamplingConfiguration, n: nat)
    requires configuration.BothEnabled()
    ensures Due(configuration, n) <==> n * configuration.selectiveInterval % configuration.cpuInterval == 0
  {
  }

  lemma ShortProduct(cpu: nat, selective: nat)
    requires cpu > selective > 0 && cpu % selective != 0
    ensures cpu / selective * selective % cpu != 0
  {
    var n := cpu / selective * selective;
    ProductIsPositive(cpu / selective, selective);
    assert 0 < n < cpu;
    RemainderIsUnique(n, 0, n, cpu);
  }

  lemma MultipleOf(cpu: nat, selective: nat)
    requires cpu > 0
    ensures cpu * selective % cpu == 0
  {
    RemainderIsUnique(cpu * selective, selective, 0, cpu);
  }

  /** The guard of the service asks for that, and that some cycle is left to the selected threads alone. */
  lemma AdmissibleExactly(configuration: ThreadSamplingConfiguration)
    requires configuration.BothEnabled()
    ensures configuration.Admissible() <==>
      OnTime(configuration) && exists n: nat :: n > 0 && Prescribed(configuration, n) == SelectedThreads
  {
    hide OnTime;
    OnTimeExactly(configuration);
    var cpu, selective := configuration.cpuInterval, configuration.selectiveInterval;
    if configuration.Admissible() {
      AtLeastTwice(cpu, selective);
      RemainderIsUnique(1, 0, 1, Period(configuration));
      assert Prescribed(configuration, 1) == SelectedThreads;
    } else if cpu == selective {
      RemainderIsUnique(cpu, 1, 0, selective);
      assert Period(configuration) == 1;
      forall n: nat ensures Prescribed(configuration, n) == Continuous {
        RemainderIsUnique(n, n, 0, 1);
      }
    } else if cpu % selective == 0 {
      AtLeastOnce(cpu, selective);
    }
  }

  lemma AtLeastTwice(cpu: nat, selective: nat)
    requires cpu > selective > 0 && cpu % selective == 0
    ensures cpu / selective >= 2
  {
    AtLeastOnce(cpu, selective);
  }

  /** In a run under admissible configurations, every cycle is due exactly when it samples all threads. */
  lemma {:induction false} AllThreadsEveryCpuInterval(cycles: seq<Cycle>, i: nat)
    requires Paced(cycles) && i < |cycles| && cycles[i].configuration.Admissible()
    ensures cycles[i].samplingType.Continuous? <==>
      Due(cycles[i].configuration, Count(cycles[..i + 1], cycles[i].configuration.version))
  {
    hide Prescribed, Due;
    var configuration := cycles[i].configuration;
    var n := Count(cycles[..i + 1], configuration.version);
    CountBound(cycles, i);
    assert OnSchedule(cycles[i], n);
    OnTimeExactly(configuration);
  }

  // ---------------------------------------------------------------- the sampling thread

  datatype Phase = Sampling | Waiting | Stopped

  datatype Event = Staged(cpuInterval: uint32, selectiveInterval: uint32) | ShutdownRequested
                 | Resumed | Woken(timedOut: bool)

  class SamplingThread {
    // The mailbox.
    var desired: ThreadSamplingConfiguration
    var shutdownRequested: bool
    // The worker's own variables.
    var configuration: ThreadSamplingConfiguration
    var previousConfigurationVersion: nat
    var iteration: uint32
    var phase: Phase
    /** Every cycle admitted so far. */
    ghost var cycles: seq<Cycle>

    ghost predicate VersionsGrow()
      reads this
    {
      && (forall i :: 0 <= i < |cycles| ==> cycles[i].configuration.version <= configuration.version)
      && configuration.version <= desired.version
      && (configuration.version == desired.version ==> configuration == desired)
    }

    ghost predicate Waits()
      reads this
    {
      && (forall i :: 0 <= i < |cycles| ==> cycles[i].configuration.version <= previousConfigurationVersion)
      && previousConfigurationVersion <= configuration.version
      && (previousConfigurationVersion == configuration.version ==>
            iteration == Counter(configuration, Count(cycles, configuration.version)))
    }

    ghost predicate Valid()
      reads this
    {
      && VersionsGrow() && Paced(cycles)
      && (phase == Waiting ==> Waits())
      && (phase == Sampling ==> iteration == Counter(configuration, Count(cycles, configuration.version)))
    }

    constructor (desired: ThreadSamplingConfiguration)
      ensures Valid() && phase == Sampling && cycles == [] && this.desired == desired && !shutdownRequested
    {
      this.desired, shutdownRequested := desired, false;
      configuration, previousConfigurationVersion, iteration, phase := desired, desired.version, 0, Sampling;
      cycles := [];
    }

    method StageThreadSamplingConfiguration(cpuInterval: uint32, selectiveInterval: uint32)
      requires Valid()
      modifies `desired
      ensures Valid()
      ensures desired == ThreadSamplingConfiguration(cpuInterval, selectiveInterval, old(desired.version) + 1)
    {
      desired := ThreadSamplingConfiguration(cpuInterval, selectiveInterval, desired.version + 1);
    }

    method RequestShutdown()
      requires Valid()
      modifies `shutdownRequested
      ensures Valid() && shutdownRequested
    {
      shutdownRequested := true;
    }

    predicate ShouldWake()
      reads this
    {
      shutdownRequested || configuration.version != desired.version
    }

    /** The top of the waiting loop. */
    method Refresh()
      requires Valid() && phase == Waiting
      modifies `configuration, `phase
      ensures Valid()
      ensures if shutdownRequested then phase == Stopped && configuration == old(configuration)
              else phase == Waiting && configuration == desired
    {
      if shutdownRequested {
        phase := Stopped;
        return;
      }
      if configuration.version != desired.version {
        configuration := desired;
      }
    }

    /** The worker is done with a cycle, or has just started, and waits for the next one. */
    method Resume()
      requires Valid() && phase == Sampling
      modifies `configuration, `previousConfigurationVersion, `phase
      ensures Valid()
      ensures previousConfigurationVersion == old(configuration.version)
      ensures if shutdownRequested then phase == Stopped && configuration == old(configuration)
              else phase == Waiting && configuration == desired
    {
      previousConfigurationVersion := configuration.version;
      phase := Waiting;
      Refresh();
    }

    /**
     * The worker is notified, spuriously woken or past its deadline, and holds the mutex again.
     * A cycle is admitted exactly when an enabled interval ran out with nothing new in the mailbox.
     */
    method Wake(timedOut: bool) returns (admitted: bool)
      requires Valid() && phase == Waiting
      modifies `configuration, `iteration, `phase, `cycles
      ensures Valid()
      ensures admitted <==> timedOut && old(configuration).IsEnabled() && !shutdownRequested
                            && old(configuration.version) == desired.version
      ensures if admitted
              then
                && |cycles| == |old(cycles)| + 1 && cycles[..|old(cycles)|] == old(cycles)
                && cycles[|old(cycles)|].latest == desired == configuration && phase == Sampling
              else cycles == old(cycles)
      ensures shutdownRequested ==> phase == Stopped
      ensures !admitted && !shutdownRequested ==> phase == Waiting && configuration == desired
      ensures configuration == old(configuration) || configuration == desired
      ensures admitted ==> cycles[|old(cycles)|].configuration == desired
    {
      hide Paced, Counter, Count;
      var interrupted := ShouldWake();
      if interrupted {
        Refresh();
        return false;
      }
      if !configuration.IsEnabled() || !timedOut {
        return false;
      }
      phase := Sampling;
      RunCycle();
      return true;
    }

    /** The body of the sampling loop after a cycle has been admitted. */
    method RunCycle()
      requires VersionsGrow() && Paced(cycles) && Waits()
      requires configuration.IsEnabled() && configuration == desired
      modifies `iteration, `cycles
      ensures VersionsGrow() && Paced(cycles)
      ensures iteration == Counter(configuration, Count(cycles, configuration.version))
      ensures |cycles| == |old(cycles)| + 1 && cycles[..|old(cycles)|] == old(cycles)
      ensures cycles[|old(cycles)|].latest == cycles[|old(cycles)|].configuration == desired
    {
      hide Paced, Counter, Count, Period, Prescribed;
      ghost var n := Count(cycles, configuration.version);
      if configuration.version != previousConfigurationVersion {
        iteration := 0;
        NoneCounted(cycles, configuration.version);
      }
      DecisionIsPrescribed(configuration, n + 1);
      if configuration.BothEnabled() {
        iteration := Wrap32(iteration + 1);
      } else {
        iteration := 0;
        CounterIsIdle(configuration, n + 1);
      }
      var samplingType := GetNextSamplingType(configuration, iteration);
      ghost var cycle := Cycle(configuration, desired, samplingType, iteration);
      PacedStep(cycles, cycle);
      cycles := cycles + [cycle];
      if samplingType == Continuous && configuration.BothEnabled() {
        iteration := 0;
      }
    }

    lemma CounterIsIdle(configuration: ThreadSamplingConfiguration, n: nat)
      requires !configuration.BothEnabled()
      ensures Counter(configuration, n) == 0
    {
    }

    /** Any run: stagings, shutdown requests, notifications and deadlines in whatever order they come. */
    method Run(events: seq<Event>)
      requires Valid()
      modifies this
      ensures Valid() && Paced(cycles)
    {
      hide Paced, Waits, VersionsGrow;
      for i := 0 to |events|
        invariant Valid()
      {
        match events[i]
        case Staged(cpuInterval, selectiveInterval) =>
          StageThreadSamplingConfiguration(cpuInterval, selectiveInterval);
        case ShutdownRequested =>
          RequestShutdown();
        case Resumed =>
          if phase == Sampling {
            Resume();
          }
        case Woken(timedOut) =>
          if phase == Waiting {
            var admitted := Wake(timedOut);
          }
      }
    }
  }
}
