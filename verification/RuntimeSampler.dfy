/**
 * The runtime sampler service in front of the sampling thread: who may configure it, which configurations it
 * commits, and what its failures leave behind. Only what it commits is ever staged, so that the sampling thread
 * samples all threads once every CPU interval, over any run of applications, failures, shutdowns and wakes.
 * Calls that can fail, to create, prepare and start things, are parameters of each application.
 */
module RuntimeSampler {
  import opened Scheduler

  datatype Authority = NoAuthority | Seed | ControlPlane

  datatype ApplyResult = Applied | NoChange | IgnoredSeedAlreadyCommitted | IgnoredLowerAuthority
                       | RejectedInvalidArgument | RejectedInvalidConfiguration | ActivationFailed | ShuttingDown

  datatype RuntimeConfiguration = RuntimeConfiguration(cpuInterval: uint32, selectiveInterval: uint32,
                                                       maxAllocationSamples: uint32)
  {
    predicate IsValid() {
      cpuInterval != 0 && selectiveInterval != 0 ==>
        !(cpuInterval <= selectiveInterval || cpuInterval % selectiveInterval != 0)
    }

    predicate ThreadSamplingEnabled() {
      cpuInterval != 0 || selectiveInterval != 0
    }

    predicate AllocationEnabled() {
      maxAllocationSamples != 0
    }

    predicate AnyFeatureEnabled() {
      ThreadSamplingEnabled() || AllocationEnabled()
    }
  }

  const DISABLED := RuntimeConfiguration(0, 0, 0)

  datatype Session = Started | NotStarted | PermanentlyDisabled

  /** What the fallible steps of an activation come to, each if it is taken. */
  datatype Steps = Steps(samplerCreated: bool, buffersPrepared: bool, threadStarted: bool, eventsEnabled: bool,
                         session: Session)

  /** Everything the configuration needs before the allocation session is there. */
  predicate Prepared(configuration: RuntimeConfiguration, hasSampler: bool, steps: Steps) {
    && (hasSampler || steps.samplerCreated)
    && (configuration.selectiveInterval != 0 ==> steps.buffersPrepared)
    && (configuration.ThreadSamplingEnabled() ==> steps.threadStarted)
    && steps.eventsEnabled
  }

  predicate NeedsSession(configuration: RuntimeConfiguration, committed: RuntimeConfiguration) {
    configuration.AllocationEnabled() && !committed.AllocationEnabled()
  }

  predicate Activates(configuration: RuntimeConfiguration, committed: RuntimeConfiguration, hasSampler: bool,
        steps: Steps)
  {
    configuration.AnyFeatureEnabled() ==>
      && Prepared(configuration, hasSampler, steps)
      && (NeedsSession(configuration, committed) ==> steps.session.Started?)
  }

  /** The activation fails in the allocation branch alone, which leaves everything else as it is. */
  predicate OnlySessionFails(configuration: RuntimeConfiguration, committed: RuntimeConfiguration, hasSampler: bool,
        steps: Steps)
  {
    Prepared(configuration, hasSampler, steps) && NeedsSession(configuration, committed)
    && steps.session.PermanentlyDisabled?
  }

  datatype Commit = Commit(source: Authority, configuration: RuntimeConfiguration)

  /** At most the first commit is a seed's, and only valid configurations are committed. */
  predicate Legitimate(commits: seq<Commit>) {
    forall i :: 0 <= i < |commits| ==>
      && commits[i].configuration.IsValid() && !commits[i].source.NoAuthority?
      && (i > 0 ==> commits[i].source.ControlPlane?)
  }

  /** Every cycle samples all threads exactly when the CPU interval has run out a whole number of times. */
  ghost predicate EveryCpuInterval(cycles: seq<Cycle>) {
    forall i :: 0 <= i < |cycles| ==>
      && cycles[i].configuration.Admissible()
      && (cycles[i].samplingType.Continuous? <==>
            Due(cycles[i].configuration, Count(cycles[..i + 1], cycles[i].configuration.version)))
  }

  datatype ServiceEvent =
    | Apply(source: Authority, configuration: RuntimeConfiguration, workerFailed: bool, steps: Steps)
    | ShutDown
    | Resume
    | Wake(timedOut: bool)

  class RuntimeSamplerService {
    var authority: Authority
    var committed: RuntimeConfiguration
    var shutdownStarted: bool
    var activationFailed: bool
    var sampler: SamplingThread?
    /** Every commit so far. */
    ghost var commits: seq<Commit>

    ghost function Parts(): set<object>
      reads `sampler
    {
      if sampler == null then {} else {sampler}
    }

    /** The committed intervals are in the mailbox, and the thread has seen none but such. */
    ghost predicate InStep()
      reads this, Parts()
    {
      if sampler == null then !committed.AnyFeatureEnabled()
      else
        && sampler.Valid()
        && sampler.desired.cpuInterval == committed.cpuInterval
        && sampler.desired.selectiveInterval == committed.selectiveInterval
        && sampler.configuration.Admissible()
        && (forall i :: 0 <= i < |sampler.cycles| ==> sampler.cycles[i].configuration.Admissible())
        && (shutdownStarted || activationFailed ==> sampler.shutdownRequested)
    }

    ghost predicate Valid()
      reads this, Parts()
    {
      && InStep() && Legitimate(commits) && committed.IsValid()
      && (if commits == [] then authority == NoAuthority && committed == DISABLED
          else Commit(authority, committed) == commits[|commits| - 1])
    }

    constructor ()
      ensures Valid() && authority == NoAuthority && committed == DISABLED && sampler == null && commits == []
      ensures !shutdownStarted && !activationFailed
    {
      authority, committed, shutdownStarted, activationFailed := NoAuthority, DISABLED, false, false;
      sampler, commits := null, [];
    }

    /** The service still takes configurations. */
    predicate Alive(workerFailed: bool)
      reads this
    {
      !shutdownStarted && !activationFailed && !(sampler != null && workerFailed)
    }

    /** The request gets past the checks of its source and its configuration. */
    predicate Passes(source: Authority, configuration: RuntimeConfiguration, workerFailed: bool)
      reads this
    {
      && Alive(workerFailed) && configuration.IsValid()
      && !source.NoAuthority? && (source.Seed? ==> authority.NoAuthority?)
    }

    /** The failure of an activation with nothing committed, or of the worker, is final and stops the thread. */
    method Fail()
      requires Valid()
      modifies `activationFailed, Parts()
      ensures Valid() && activationFailed
      ensures sampler != null ==> sampler.desired == old(sampler.desired) && sampler.cycles == old(sampler.cycles)
    {
      if sampler != null {
        sampler.RequestShutdown();
      }
      activationFailed := true;
    }

    method EnsureSamplerCreated(created: bool) returns (ok: bool)
      requires Valid() && !shutdownStarted && !activationFailed
      modifies `sampler
      ensures Valid() && (ok <==> old(sampler) != null || created) && (ok ==> sampler != null)
      ensures sampler == old(sampler) || fresh(sampler)
      ensures old(sampler) != null ==> sampler == old(sampler)
    {
      if sampler == null && created {
        sampler := new SamplingThread(ThreadSamplingConfiguration(0, 0, 0));
      }
      ok := sampler != null;
    }

    /** The steps in order; failed tells which kind of failure, final or not, an unfinished activation is. */
    method Activate(configuration: RuntimeConfiguration, steps: Steps) returns (ok: bool, mayBeFinal: bool)
      requires Valid() && !shutdownStarted && !activationFailed && configuration.AnyFeatureEnabled()
      modifies `sampler
      ensures Valid() && (ok ==> sampler != null)
      ensures sampler == old(sampler) || fresh(sampler)
      ensures old(sampler) != null ==> sampler == old(sampler)
      ensures ok <==> Activates(configuration, committed, old(sampler) != null, steps)
      ensures !ok ==> (mayBeFinal <==> !OnlySessionFails(configuration, committed, old(sampler) != null, steps))
    {
      mayBeFinal := true;
      ok := EnsureSamplerCreated(steps.samplerCreated);
      if !ok {
        return;
      }
      if configuration.selectiveInterval != 0 && !steps.buffersPrepared {
        return false, true;
      }
      if configuration.ThreadSamplingEnabled() && !steps.threadStarted {
        return false, true;
      }
      if !steps.eventsEnabled {
        return false, true;
      }
      if configuration.AllocationEnabled() && !committed.AllocationEnabled() && !steps.session.Started? {
        return false, !steps.session.PermanentlyDisabled?;
      }
    }

    /** Commits, and stages the intervals if they have changed. */
    method Publish(source: Authority, configuration: RuntimeConfiguration)
      requires Valid() && configuration.IsValid() && (configuration.AnyFeatureEnabled() ==> sampler != null)
      requires !source.NoAuthority? && (source.Seed? ==> authority.NoAuthority?)
      modifies `authority, `committed, `commits, Parts()
      ensures Valid() && authority == source && committed == configuration
      ensures commits == old(commits) + [Commit(source, configuration)]
      ensures sampler != null ==> sampler.cycles == old(sampler.cycles)
      ensures sampler != null && configuration.cpuInterval == old(committed.cpuInterval)
              && configuration.selectiveInterval == old(committed.selectiveInterval) ==>
                sampler.desired == old(sampler.desired)
    {
      var previous := committed;
      authority, committed, commits := source, configuration, commits + [Commit(source, configuration)];
      if sampler != null {
        if previous.cpuInterval != committed.cpuInterval || previous.selectiveInterval != committed.selectiveInterval {
          sampler.StageThreadSamplingConfiguration(committed.cpuInterval, committed.selectiveInterval);
        }
      }
    }

    /**
     * ApplyConfiguration. A request is committed exactly when it is valid, comes with enough authority and
     * can be activated; any other leaves authority, configuration, mailbox and history as they are.
     */
    method ApplyConfiguration(source: Authority, configuration: RuntimeConfiguration, workerFailed: bool, steps: Steps)
        returns (r: ApplyResult)
      requires Valid()
      modifies this, Parts()
      ensures Valid() && fresh(Parts() - old(Parts())) && shutdownStarted == old(shutdownStarted)
      ensures old(sampler) != null ==> sampler == old(sampler) && sampler.cycles == old(sampler.cycles)
      ensures r.Applied? <==>
        && old(Passes(source, configuration, workerFailed))
        && (if configuration == old(committed) then source != old(authority)
            else Activates(configuration, old(committed), old(sampler) != null, steps))
      ensures r.Applied? ==> authority == source && committed == configuration
      ensures r.Applied? ==> commits == old(commits) + [Commit(source, configuration)]
      ensures !r.Applied? ==> authority == old(authority) && committed == old(committed) && commits == old(commits)
      // A request that keeps the intervals, or fails, leaves the mailbox alone: the schedule goes on.
      ensures old(sampler) != null && (!r.Applied? || (configuration.cpuInterval == old(committed.cpuInterval)
              && configuration.selectiveInterval == old(committed.selectiveInterval))) ==>
                sampler.desired == old(sampler.desired)
      ensures r.ShuttingDown? <==> old(shutdownStarted)
      ensures r.RejectedInvalidArgument? <==> old(Alive(workerFailed)) && source.NoAuthority?
      ensures r.RejectedInvalidConfiguration? <==>
        old(Alive(workerFailed)) && !source.NoAuthority? && !configuration.IsValid()
      ensures r.NoChange? <==>
        old(Passes(source, configuration, workerFailed)) && configuration == old(committed) && source == old(authority)
      ensures r.IgnoredSeedAlreadyCommitted? || r.IgnoredLowerAuthority? <==>
        old(Alive(workerFailed)) && configuration.IsValid() && source.Seed? && !old(authority).NoAuthority?
      // Only failures without a committed producer, or of the worker, are final.
      ensures activationFailed <==>
        || old(activationFailed)
        || (!old(shutdownStarted) && old(sampler) != null && workerFailed)
        || (r.ActivationFailed? && !old(committed).AnyFeatureEnabled()
            && !OnlySessionFails(configuration, old(committed), old(sampler) != null, steps))
    {
      hide Prepared;
      if shutdownStarted {
        return ShuttingDown;
      }
      if activationFailed {
        return ActivationFailed;
      }
      if sampler != null && workerFailed {
        Fail();
        return ActivationFailed;
      }
      if source.NoAuthority? {
        return RejectedInvalidArgument;
      }
      if !configuration.IsValid() {
        return RejectedInvalidConfiguration;
      }
      if source.Seed? && authority.Seed? {
        return IgnoredSeedAlreadyCommitted;
      }
      if source.Seed? && authority.ControlPlane? {
        return IgnoredLowerAuthority;
      }
      if configuration == committed {
        if source == authority {
          return NoChange;
        }
        authority := source;
        commits := commits + [Commit(source, configuration)];
        return Applied;
      }
      if configuration.AnyFeatureEnabled() {
        var ok, mayBeFinal := Activate(configuration, steps);
        if !ok {
          if mayBeFinal && !committed.AnyFeatureEnabled() {
            Fail();
          }
          return ActivationFailed;
        }
      }
      Publish(source, configuration);
      return Applied;
    }

    method Shutdown()
      requires Valid()
      modifies `shutdownStarted, Parts()
      ensures Valid() && shutdownStarted
      ensures sampler != null ==> sampler.cycles == old(sampler.cycles)
    {
      shutdownStarted := true;
      if sampler != null {
        sampler.RequestShutdown();
      }
    }

    /** The sampling thread's next step, if it is due to take that one. */
    method Work(event: ServiceEvent) returns (admitted: bool)
      requires Valid()
      modifies Parts()
      ensures Valid()
      ensures admitted ==> sampler != null && !shutdownStarted && !activationFailed
      ensures admitted ==>
        && |sampler.cycles| == |old(sampler.cycles)| + 1
        && sampler.cycles[|old(sampler.cycles)|].configuration.cpuInterval == committed.cpuInterval
        && sampler.cycles[|old(sampler.cycles)|].configuration.selectiveInterval == committed.selectiveInterval
      ensures sampler != null && !admitted ==> sampler.cycles == old(sampler.cycles)
    {
      hide SamplingThread.Valid, Legitimate;
      admitted := false;
      if sampler == null {
        return;
      }
      if event.Resume? && sampler.phase == Sampling {
        sampler.Resume();
      } else if event.Wake? && sampler.phase == Waiting {
        admitted := sampler.Wake(event.timedOut);
      }
    }

    /** Any run of applications, failures, shutdowns and steps of the sampling thread. */
    method Run(events: seq<ServiceEvent>)
      requires Valid()
      modifies this, Parts()
      ensures Valid() && fresh(Parts() - old(Parts())) && old(commits) <= commits
      ensures sampler != null ==> EveryCpuInterval(sampler.cycles)
    {
      hide Valid, Legitimate, EveryCpuInterval, Due, Prepared;
      for i := 0 to |events|
        invariant Valid() && fresh(Parts() - old(Parts())) && old(commits) <= commits
      {
        match events[i]
        case Apply(source, configuration, workerFailed, steps) =>
          var r := ApplyConfiguration(source, configuration, workerFailed, steps);
        case ShutDown =>
          Shutdown();
        case Resume =>
          var admitted := Work(events[i]);
        case Wake(_) =>
          var admitted := Work(events[i]);
      }
      KeepsCpuInterval();
    }

    lemma KeepsCpuInterval()
      requires Valid()
      ensures sampler != null ==> EveryCpuInterval(sampler.cycles)
    {
      hide Due, Paced, Legitimate;
      if sampler != null {
        forall i | 0 <= i < |sampler.cycles|
          ensures sampler.cycles[i].samplingType.Continuous? <==>
            Due(sampler.cycles[i].configuration,
              Count(sampler.cycles[..i + 1], sampler.cycles[i].configuration.version))
        {
          AllThreadsEveryCpuInterval(sampler.cycles, i);
        }
      }
    }
  }
}
