/**
 * The sub-sampler of allocation events: at most a target number of samples per cycle, paced apart
 * during the first cycles after a start or a change of target.
 */
module SubSampler {
  import opened Bytes

  const STARTUP_ALLOCATION_PACED_CYCLES: nat := 10
  /** The steady clock counts nanoseconds. */
  const MILLISECOND: nat := 1_000_000

  type uint32 = x: int | 0 <= x < 0x1_0000_0000

  /** The least steady-clock time between two samples of a startup cycle. */
  function Spacing(secondsPerCycle: uint32, target: uint32): nat
    requires target > 0
  {
    secondsPerCycle * 1000 / target * MILLISECOND
  }

  // ---------------------------------------------------------------- what is promised of a run

  /** An accepted sample: when, in which epoch and cycle, and whether that was a startup cycle. */
  datatype Sample = Sample(at: nat, epoch: nat, cycle: nat, startup: bool, target: uint32)

  function InCycle(samples: seq<Sample>, cycle: nat): (n: nat)
    ensures n <= |samples|
  {
    if samples == [] then 0
    else InCycle(samples[..|samples| - 1], cycle) + if samples[|samples| - 1].cycle == cycle then 1 else 0
  }

  /** b comes right after a: a startup sample keeps its distance from the one before in its epoch. */
  predicate Follows(a: Sample, b: Sample, secondsPerCycle: uint32) {
    && a.cycle <= b.cycle && a.epoch <= b.epoch && (a.cycle == b.cycle ==> a.epoch == b.epoch)
    && a.target > 0 && b.target > 0
    && (a.epoch == b.epoch ==>
          && a.target == b.target
          && (b.startup ==> a.startup && a.at + Spacing(secondsPerCycle, a.target) <= b.at))
  }

  /** Every sample was within the target of its cycle and follows the one before as it should. */
  ghost predicate Disciplined(samples: seq<Sample>, secondsPerCycle: uint32) {
    samples == [] ||
    (var last := samples[|samples| - 1];
     && Disciplined(samples[..|samples| - 1], secondsPerCycle)
     && last.target > 0 && InCycle(samples, last.cycle) <= last.target
     && (|samples| > 1 ==> Follows(samples[|samples| - 2], last, secondsPerCycle)))
  }

  lemma {:induction false} DisciplinedAt(samples: seq<Sample>, secondsPerCycle: uint32, i: nat)
    requires Disciplined(samples, secondsPerCycle) && i < |samples|
    ensures samples[i].target > 0
    ensures i > 0 ==> Follows(samples[i - 1], samples[i], secondsPerCycle)
    decreases |samples|
  {
    if i < |samples| - 1 {
      DisciplinedAt(samples[..|samples| - 1], secondsPerCycle, i);
    }
  }

  /** No cycle has more samples than the target it ran under. */
  lemma {:induction false} CycleBound(samples: seq<Sample>, secondsPerCycle: uint32, i: nat)
    requires Disciplined(samples, secondsPerCycle) && i < |samples|
    ensures InCycle(samples, samples[i].cycle) <= samples[i].target
    decreases |samples|
  {
    hide Follows;
    var n := |samples| - 1;
    if i < n {
      CycleBound(samples[..n], secondsPerCycle, i);
      if samples[n].cycle == samples[i].cycle {
        OneCycleOneTarget(samples, secondsPerCycle, i, n);
      }
    }
  }

  lemma {:induction false} OneCycleOneTarget(samples: seq<Sample>, secondsPerCycle: uint32, i: nat, j: nat)
    requires Disciplined(samples, secondsPerCycle) && i <= j < |samples|
    ensures samples[i].cycle <= samples[j].cycle && samples[i].epoch <= samples[j].epoch
    ensures samples[i].cycle == samples[j].cycle ==> samples[i].epoch == samples[j].epoch
    ensures samples[i].epoch == samples[j].epoch ==> samples[i].target == samples[j].target
    decreases j
  {
    hide Disciplined, Spacing;
    if i < j {
      OneCycleOneTarget(samples, secondsPerCycle, i, j - 1);
      DisciplinedAt(samples, secondsPerCycle, j);
    }
  }

  /** The startup samples of an epoch come in one stretch, each the spacing after the one before. */
  lemma {:induction false} SpreadOut(samples: seq<Sample>, secondsPerCycle: uint32, i: nat, j: nat)
    requires Disciplined(samples, secondsPerCycle) && i <= j < |samples|
    requires samples[j].startup && samples[i].epoch == samples[j].epoch
    ensures samples[i].target == samples[j].target > 0 && samples[i].startup
    ensures samples[i].at + (j - i) * Spacing(secondsPerCycle, samples[i].target) <= samples[j].at
    decreases j
  {
    hide Disciplined, Spacing;
    DisciplinedAt(samples, secondsPerCycle, i);
    if i < j {
      OneCycleOneTarget(samples, secondsPerCycle, i, j - 1);
      DisciplinedAt(samples, secondsPerCycle, j);
      SpreadOut(samples, secondsPerCycle, i, j - 1);
      OneMore(j - 1 - i, Spacing(secondsPerCycle, samples[i].target));
    }
  }

  lemma OneMore(n: int, d: int)
    ensures (n + 1) * d == n * d + d
  {
  }

  /** The startup samples of an epoch that fall in a window of steady-clock time. */
  ghost function Window(samples: seq<Sample>, epoch: nat, start: nat, width: nat): set<nat> {
    set k: nat | k < |samples| && samples[k].startup && samples[k].epoch == epoch
              && start <= samples[k].at <= start + width
  }

  lemma {:induction false} Extremes(s: set<nat>) returns (least: nat, most: nat)
    requires s != {}
    ensures least in s && most in s && forall k :: k in s ==> least <= k <= most
    decreases |s|
  {
    var k :| k in s;
    if s == {k} {
      least, most := k, k;
    } else {
      var rest := s - {k};
      assert s == rest + {k};
      least, most := Extremes(rest);
      least, most := if k < least then k else least, if k > most then k else most;
    }
  }

  lemma {:induction false} RangeCount(s: set<nat>, lo: nat, n: nat)
    requires forall k :: k in s ==> lo <= k < lo + n
    ensures |s| <= n
    decreases n
  {
    if n == 0 {
      assert s == {};
    } else {
      var last := lo + n - 1;
      RangeCount(s - {last}, lo, n - 1);
      assert |s| <= |s - {last}| + 1;
    }
  }

  /** A window holds at most one startup sample for every spacing that fits in it, and one more. */
  lemma StartupWindowBound(samples: seq<Sample>, secondsPerCycle: uint32, epoch: nat, start: nat, width: nat, i: nat)
    requires Disciplined(samples, secondsPerCycle) && i in Window(samples, epoch, start, width)
    requires samples[i].target > 0 && Spacing(secondsPerCycle, samples[i].target) > 0
    ensures |Window(samples, epoch, start, width)| <= width / Spacing(secondsPerCycle, samples[i].target) + 1
  {
    hide Spacing, Disciplined;
    var s := Window(samples, epoch, start, width);
    var least, most := Extremes(s);
    SpreadOut(samples, secondsPerCycle, least, most);
    SpreadOut(samples, secondsPerCycle, least, i);
    RangeCount(s, least, most - least + 1);
    QuotientBound(most - least, Spacing(secondsPerCycle, samples[i].target), width);
  }

  // ---------------------------------------------------------------- windows across changes of target

  /** The target of an epoch with samples. */
  function TargetOf(samples: seq<Sample>, epoch: nat): uint32 {
    if samples == [] then 0
    else
      var last := samples[|samples| - 1];
      if last.epoch == epoch then last.target else TargetOf(samples[..|samples| - 1], epoch)
  }

  /** The startup samples of the first epochs that fall in a window. */
  ghost function WindowUpTo(samples: seq<Sample>, epochs: nat, start: nat, width: nat): set<nat> {
    set k: nat | k < |samples| && samples[k].startup && samples[k].epoch < epochs
              && start <= samples[k].at <= start + width
  }

  /** What the pacing admits of one epoch in any window of a width, if it has samples there at all. */
  ghost function Allowance(samples: seq<Sample>, secondsPerCycle: uint32, epoch: nat, start: nat, width: nat): nat {
    var target := TargetOf(samples, epoch);
    if Window(samples, epoch, start, width) == {} || target == 0 || Spacing(secondsPerCycle, target) == 0 then 0
    else width / Spacing(secondsPerCycle, target) + 1
  }

  ghost function Allowances(samples: seq<Sample>, secondsPerCycle: uint32, epochs: nat, start: nat, width: nat): nat {
    if epochs == 0 then 0
    else
      Allowances(samples, secondsPerCycle, epochs - 1, start, width)
      + Allowance(samples, secondsPerCycle, epochs - 1, start, width)
  }

  lemma {:induction false} TargetIsKept(samples: seq<Sample>, secondsPerCycle: uint32, i: nat)
    requires Disciplined(samples, secondsPerCycle) && i < |samples|
    ensures TargetOf(samples, samples[i].epoch) == samples[i].target
    decreases |samples|
  {
    hide Spacing;
    var n := |samples| - 1;
    if samples[n].epoch == samples[i].epoch {
      OneCycleOneTarget(samples, secondsPerCycle, i, n);
    } else {
      TargetIsKept(samples[..n], secondsPerCycle, i);
    }
  }

  /** Whatever the changes of target, a window holds at most what the pacing of each epoch in it admits. */
  lemma {:induction false} StartupWindowBoundOverEpochs(samples: seq<Sample>, secondsPerCycle: uint32, epochs: nat,
        start: nat, width: nat)
    requires Disciplined(samples, secondsPerCycle)
    requires forall i :: i in WindowUpTo(samples, epochs, start, width) && samples[i].target > 0 ==>
      Spacing(secondsPerCycle, samples[i].target) > 0
    ensures |WindowUpTo(samples, epochs, start, width)|
         <= Allowances(samples, secondsPerCycle, epochs, start, width)
    decreases epochs
  {
    hide Spacing, Disciplined, TargetOf;
    if epochs == 0 {
      assert WindowUpTo(samples, epochs, start, width) == {};
    } else {
      var epoch := epochs - 1;
      var earlier, s := WindowUpTo(samples, epoch, start, width), Window(samples, epoch, start, width);
      assert WindowUpTo(samples, epochs, start, width) == earlier + s;
      StartupWindowBoundOverEpochs(samples, secondsPerCycle, epoch, start, width);
      if s != {} {
        var i :| i in s;
        DisciplinedAt(samples, secondsPerCycle, i);
        TargetIsKept(samples, secondsPerCycle, i);
        StartupWindowBound(samples, secondsPerCycle, epoch, start, width, i);
      }
    }
  }

  lemma QuotientBound(n: nat, d: nat, w: nat)
    requires d > 0 && n * d <= w
    ensures n <= w / d
  {
    var q := w / d;
    assert w - q * d < d;
    assert (n - q) * d == n * d - q * d;
    AtLeastOnce(n - q, d);
  }

  lemma AtLeastOnce(k: int, d: nat)
    ensures k >= 1 ==> k * d >= d
  {
  }

  lemma {:induction false} NoneInLaterCycle(samples: seq<Sample>, secondsPerCycle: uint32, cycle: nat)
    requires Disciplined(samples, secondsPerCycle)
    requires samples != [] ==> samples[|samples| - 1].cycle < cycle
    ensures InCycle(samples, cycle) == 0
    decreases |samples|
  {
    hide Spacing;
    if samples != [] {
      NoneInLaterCycle(samples[..|samples| - 1], secondsPerCycle, cycle);
    }
  }

  lemma DisciplinedStep(samples: seq<Sample>, sample: Sample, secondsPerCycle: uint32)
    requires Disciplined(samples, secondsPerCycle)
    requires InCycle(samples, sample.cycle) < sample.target
    requires samples != [] ==> Follows(samples[|samples| - 1], sample, secondsPerCycle)
    ensures Disciplined(samples + [sample], secondsPerCycle)
    ensures InCycle(samples + [sample], sample.cycle) == InCycle(samples, sample.cycle) + 1
  {
    assert (samples + [sample])[..|samples|] == samples;
  }

  // ---------------------------------------------------------------- the sub-sampler

  class AllocationSubSampler {
    var targetPerCycle: uint32
    const secondsPerCycle: uint32
    var seenThisCycle: uint32
    var sampledThisCycle: uint32
    var seenLastCycle: uint32
    var startupCyclesRemaining: nat
    var startupNextSampleAllowedAt: nat
    var nextCycleStartMillis: int
    /** All samples accepted so far; cycles are numbered across epochs. */
    ghost var samples: seq<Sample>
    ghost var epoch: nat
    ghost var cycle: nat
    ghost var steadyClock: nat

    /** Where this cycle and this epoch stand, as the history has it. */
    ghost predicate Consistent()
      reads this
    {
      && sampledThisCycle == InCycle(samples, cycle)
      && (samples != [] ==>
            var last := samples[|samples| - 1];
            && last.cycle <= cycle && last.epoch <= epoch && (last.cycle == cycle ==> last.epoch == epoch)
            && (targetPerCycle > 0 && last.epoch == epoch ==>
                  && last.target == targetPerCycle
                  && (startupCyclesRemaining > 0 ==> last.startup)
                  && (last.startup ==>
                        last.at + Spacing(secondsPerCycle, targetPerCycle) <= startupNextSampleAllowedAt)))
    }

    ghost predicate Valid()
      reads this
    {
      Consistent() && Disciplined(samples, secondsPerCycle)
    }

    constructor (targetPerCycle: uint32, secondsPerCycle: uint32, now: int, steadyNow: nat)
      ensures Valid() && samples == [] && steadyClock == steadyNow
      ensures this.targetPerCycle == targetPerCycle && this.secondsPerCycle == secondsPerCycle
      ensures startupCyclesRemaining == STARTUP_ALLOCATION_PACED_CYCLES
      ensures startupNextSampleAllowedAt == steadyNow && nextCycleStartMillis == now
      ensures seenThisCycle == 0 && sampledThisCycle == 0 && seenLastCycle == 0
    {
      this.targetPerCycle, this.secondsPerCycle := targetPerCycle, secondsPerCycle;
      seenThisCycle, sampledThisCycle, seenLastCycle := 0, 0, 0;
      startupCyclesRemaining := STARTUP_ALLOCATION_PACED_CYCLES;
      startupNextSampleAllowedAt, nextCycleStartMillis := steadyNow, now;
      samples, epoch, cycle, steadyClock := [], 0, 0, steadyNow;
    }

    /** A changed nonzero target starts a new epoch, and with it a new cycle. */
    method SetTargetPerCycle(target: uint32, now: int, steadyNow: nat)
      requires Valid() && steadyClock <= steadyNow
      modifies this
      ensures Valid() && samples == old(samples) && steadyClock == steadyNow
      ensures targetPerCycle == target
      ensures if target != old(targetPerCycle) && target != 0
              then
                && epoch == old(epoch) + 1 && cycle == old(cycle) + 1 && sampledThisCycle == 0
                && seenThisCycle == 0 && seenLastCycle == 0
                && startupCyclesRemaining == STARTUP_ALLOCATION_PACED_CYCLES
                && startupNextSampleAllowedAt == steadyNow && nextCycleStartMillis == now + secondsPerCycle * 1000
              else
                && epoch == old(epoch) && cycle == old(cycle) && sampledThisCycle == old(sampledThisCycle)
                && seenThisCycle == old(seenThisCycle) && seenLastCycle == old(seenLastCycle)
                && startupCyclesRemaining == old(startupCyclesRemaining)
                && startupNextSampleAllowedAt == old(startupNextSampleAllowedAt)
                && nextCycleStartMillis == old(nextCycleStartMillis)
    {
      hide Spacing, InCycle, Disciplined;
      steadyClock := steadyNow;
      if targetPerCycle == target {
        return;
      }
      if target != 0 {
        seenThisCycle, sampledThisCycle, seenLastCycle := 0, 0, 0;
        startupCyclesRemaining := STARTUP_ALLOCATION_PACED_CYCLES;
        startupNextSampleAllowedAt := steadyNow;
        nextCycleStartMillis := now + secondsPerCycle * 1000;
        epoch, cycle := epoch + 1, cycle + 1;
        NoneInLaterCycle(samples, secondsPerCycle, cycle);
      }
      targetPerCycle := target;
    }

    method AdvanceCycle(now: int)
      requires Valid()
      modifies `seenThisCycle, `sampledThisCycle, `seenLastCycle, `startupCyclesRemaining, `nextCycleStartMillis, `cycle
      ensures Valid()
      ensures cycle == old(cycle) + 1 && sampledThisCycle == 0
      ensures seenLastCycle == old(seenThisCycle) && seenThisCycle == 0
      ensures nextCycleStartMillis == now + secondsPerCycle * 1000
      ensures startupCyclesRemaining == if old(startupCyclesRemaining) > 0 then old(startupCyclesRemaining) - 1 else 0
    {
      hide Spacing, InCycle, Disciplined;
      nextCycleStartMillis := now + secondsPerCycle * 1000;
      seenLastCycle := seenThisCycle;
      seenThisCycle := 0;
      sampledThisCycle := 0;
      if startupCyclesRemaining > 0 {
        startupCyclesRemaining := startupCyclesRemaining - 1;
      }
      cycle := cycle + 1;
      NoneInLaterCycle(samples, secondsPerCycle, cycle);
    }

    /** roll(n) is a throw of an n-sided die. */
    method ShouldSample(now: int, steadyNow: nat, roll: nat -> nat) returns (sample: bool)
      requires Valid() && steadyClock <= steadyNow
      requires forall n: nat :: n > 0 ==> 1 <= roll(n) <= n
      modifies this
      ensures Valid() && steadyClock == steadyNow && targetPerCycle == old(targetPerCycle) && epoch == old(epoch)
      ensures cycle == old(cycle) + (if targetPerCycle != 0 && now > old(nextCycleStartMillis) then 1 else 0)
      ensures seenThisCycle == (if targetPerCycle == 0 then old(seenThisCycle)
                                else if cycle == old(cycle) then Wrap32(old(seenThisCycle) + 1) else 1)
      ensures seenLastCycle == (if cycle == old(cycle) then old(seenLastCycle) else old(seenThisCycle))
      ensures nextCycleStartMillis ==
        (if cycle == old(cycle) then old(nextCycleStartMillis) else now + secondsPerCycle * 1000)
      ensures startupCyclesRemaining == (if cycle == old(cycle) || old(startupCyclesRemaining) == 0
                                         then old(startupCyclesRemaining) else old(startupCyclesRemaining) - 1)
      ensures sample <==>
                && targetPerCycle != 0
                && InCycle(old(samples), cycle) < targetPerCycle
                && (startupCyclesRemaining > 0 ==> old(startupNextSampleAllowedAt) <= steadyNow)
                && roll(if seenLastCycle > 0 then seenLastCycle else 1) <= targetPerCycle
      ensures startupNextSampleAllowedAt
           == (if sample && startupCyclesRemaining > 0 then steadyNow + Spacing(secondsPerCycle, targetPerCycle)
               else old(startupNextSampleAllowedAt))
      ensures if sample
              then |samples| == |old(samples)| + 1 && samples[..|old(samples)|] == old(samples)
                && samples[|old(samples)|] ==
                  Sample(steadyNow, epoch, cycle, startupCyclesRemaining > 0, targetPerCycle)
              else samples == old(samples)
    {
      hide Spacing, InCycle, Disciplined;
      steadyClock := steadyNow;
      if targetPerCycle == 0 {
        return false;
      }
      if now > nextCycleStartMillis {
        AdvanceCycle(now);
      }
      seenThisCycle := Wrap32(seenThisCycle + 1);
      if sampledThisCycle >= targetPerCycle {
        return false;
      }
      if startupCyclesRemaining > 0 && steadyNow < startupNextSampleAllowedAt {
        return false;
      }
      sample := roll(if seenLastCycle > 0 then seenLastCycle else 1) <= targetPerCycle;
      if sample {
        Accept(steadyNow);
      }
    }

    method Accept(steadyNow: nat)
      requires Valid() && targetPerCycle > 0 && sampledThisCycle < targetPerCycle && steadyClock == steadyNow
      requires startupCyclesRemaining > 0 ==> startupNextSampleAllowedAt <= steadyNow
      modifies `sampledThisCycle, `startupNextSampleAllowedAt, `samples
      ensures Valid()
      ensures samples == old(samples) + [Sample(steadyNow, epoch, cycle, startupCyclesRemaining > 0, targetPerCycle)]
      ensures startupNextSampleAllowedAt
           == (if startupCyclesRemaining > 0 then steadyNow + Spacing(secondsPerCycle, targetPerCycle)
               else old(startupNextSampleAllowedAt))
    {
      hide Spacing, InCycle, Disciplined;
      ghost var sample := Sample(steadyNow, epoch, cycle, startupCyclesRemaining > 0, targetPerCycle);
      if samples != [] {
        DisciplinedAt(samples, secondsPerCycle, |samples| - 1);
      }
      DisciplinedStep(samples, sample, secondsPerCycle);
      sampledThisCycle := sampledThisCycle + 1;
      if startupCyclesRemaining > 0 {
        startupNextSampleAllowedAt := steadyNow + Spacing(secondsPerCycle, targetPerCycle);
      }
      samples := samples + [sample];
    }
  }
}
