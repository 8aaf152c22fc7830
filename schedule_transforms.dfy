/** Flux flattening of pulsed irradiation histories (tools/schedule_transforms.py).

    A pulse train of equal pulses separated by equal zero-flux dwells is
    replaced by one constant-flux interval of length tIrr whose flux is the
    peak flux scaled by fluxFactor, so that the fluence is preserved. */
module ScheduleTransforms {
  import opened Outcomes

  /** The result of a flattening: the elapsed time and the flux factor. */
  datatype Flattened = Flattened(tIrr: real, fluxFactor: real)

  /** Elapsed time of `numPulses` pulses of length `pulseLength` with a dwell
      of `dwellTime` between consecutive pulses and none after the last. */
  function PulseTrainTime(pulseLength: real, numPulses: int, dwellTime: real): real
  {
    numPulses as real * pulseLength + (numPulses - 1) as real * dwellTime
  }

  /** Time during which the flux is on: the fluence of the train in units of
      the peak flux times time. */
  function ActiveTime(pulseLength: real, numPulses: int): real
  {
    numPulses as real * pulseLength
  }

  /** flatten_pulse_history: a zero elapsed time is a division by zero. */
  function FlattenPulseHistory(pulseLength: real, numPulses: int, dwellTime: real): (r: Result<Flattened>)
    ensures r.Failure? <==> PulseTrainTime(pulseLength, numPulses, dwellTime) == 0.0
    ensures r.Failure? ==> r.error == ZeroDivisionError
    ensures r.Success? ==> r.value.tIrr == PulseTrainTime(pulseLength, numPulses, dwellTime)
    ensures r.Success? ==> r.value.fluxFactor * r.value.tIrr == ActiveTime(pulseLength, numPulses)
  {
    var tIrr := (numPulses - 1) as real * (pulseLength + dwellTime) + pulseLength;
    if tIrr == 0.0 then Failure(ZeroDivisionError)
    else Success(Flattened(tIrr, numPulses as real * pulseLength / tIrr))
  }

  /** A single pulse is its own flattening, whatever the dwell. */
  lemma SinglePulseIsUnchanged(pulseLength: real, dwellTime: real)
    requires pulseLength != 0.0
    ensures FlattenPulseHistory(pulseLength, 1, dwellTime) == Success(Flattened(pulseLength, 1.0))
  {
    var f := FlattenPulseHistory(pulseLength, 1, dwellTime).value;
    assert f.tIrr == pulseLength;
    assert f.fluxFactor == pulseLength / pulseLength == 1.0;
  }

  /** Without dwell the flux is never off, so the factor is one. */
  lemma NoDwellKeepsFullFlux(pulseLength: real, numPulses: int)
    requires ActiveTime(pulseLength, numPulses) != 0.0
    ensures FlattenPulseHistory(pulseLength, numPulses, 0.0)
         == Success(Flattened(ActiveTime(pulseLength, numPulses), 1.0))
  {
    var active := ActiveTime(pulseLength, numPulses);
    var f := FlattenPulseHistory(pulseLength, numPulses, 0.0).value;
    assert f.tIrr == active;
    assert f.fluxFactor == active / active == 1.0;
  }

  /** For a physical train (positive pulses, at least one, no negative dwell)
      flattening succeeds, only adds time, and yields a factor in (0, 1]. */
  lemma FlattenPhysicalTrain(pulseLength: real, numPulses: int, dwellTime: real)
    requires pulseLength > 0.0 && numPulses >= 1 && dwellTime >= 0.0
    ensures FlattenPulseHistory(pulseLength, numPulses, dwellTime).Success?
    ensures var f := FlattenPulseHistory(pulseLength, numPulses, dwellTime).value;
      f.tIrr >= ActiveTime(pulseLength, numPulses) > 0.0 && 0.0 < f.fluxFactor <= 1.0
  {
    var f := FlattenPulseHistory(pulseLength, numPulses, dwellTime).value;
    var active := ActiveTime(pulseLength, numPulses);
    assert (numPulses - 1) as real * dwellTime >= 0.0;
    assert active > 0.0;
    assert f.tIrr >= active;
    assert f.fluxFactor == active / f.tIrr;
  }

  /** The single-level rows of tools/test_schedule_transforms.py. */
  lemma FlattenPulseHistoryExamples()
    ensures FlattenPulseHistory(1.0, 1, 1.0) == Success(Flattened(1.0, 1.0))
    ensures FlattenPulseHistory(1.0, 2, 1.0) == Success(Flattened(3.0, 2.0 / 3.0))
    ensures FlattenPulseHistory(2.0, 4, 6.0) == Success(Flattened(26.0, 8.0 / 26.0))
  {
  }

  /** flatten_all_ph_levels, one iteration: what level `i` adds to the two
      totals. A list shorter than `pulseLengths` raises IndexError; the level
      with index len(dwellTimes) - 1 keeps its plain flattening, and every
      other level is charged its dwell once more, with its factor taken
      against that extended time. */
  function LevelContribution(pulseLengths: seq<real>, numsPulses: seq<int>, dwellTimes: seq<real>, i: nat): (r: Result<Flattened>)
    requires i < |pulseLengths|
    ensures i >= |numsPulses| || i >= |dwellTimes| ==> r == Failure(IndexError)
    ensures r.Success? ==> i < |numsPulses| && i < |dwellTimes|
    ensures i < |numsPulses| && i < |dwellTimes| ==>
      (r.Failure? <==> (PulseTrainTime(pulseLengths[i], numsPulses[i], dwellTimes[i]) == 0.0
        || (i != |dwellTimes| - 1 && numsPulses[i] as real * (pulseLengths[i] + dwellTimes[i]) == 0.0)))
    ensures r.Failure? && i < |numsPulses| && i < |dwellTimes| ==> r.error == ZeroDivisionError
    ensures r.Success? && i == |dwellTimes| - 1 ==>
      r.value.tIrr == PulseTrainTime(pulseLengths[i], numsPulses[i], dwellTimes[i])
    ensures r.Success? && i != |dwellTimes| - 1 ==>
      r.value.tIrr == numsPulses[i] as real * (pulseLengths[i] + dwellTimes[i])
    ensures r.Success? ==> r.value.fluxFactor * r.value.tIrr == ActiveTime(pulseLengths[i], numsPulses[i])
  {
    if i >= |numsPulses| || i >= |dwellTimes| then Failure(IndexError)
    else
      match FlattenPulseHistory(pulseLengths[i], numsPulses[i], dwellTimes[i])
      case Failure(e) => Failure(e)
      case Success(f) =>
        if i == |dwellTimes| - 1 then Success(f)
        else
          var extended := f.tIrr + dwellTimes[i];
          if extended == 0.0 then Failure(ZeroDivisionError)
          else Success(Flattened(extended, numsPulses[i] as real * pulseLengths[i] / extended))
  }

  /** The totals after the first `k` levels, or the exception of the first
      level that raises one. */
  function SumLevels(pulseLengths: seq<real>, numsPulses: seq<int>, dwellTimes: seq<real>, k: nat): Result<Flattened>
    requires k <= |pulseLengths|
  {
    if k == 0 then Success(Flattened(0.0, 0.0))
    else
      match SumLevels(pulseLengths, numsPulses, dwellTimes, k - 1)
      case Failure(e) => Failure(e)
      case Success(acc) =>
        match LevelContribution(pulseLengths, numsPulses, dwellTimes, k - 1)
        case Failure(e) => Failure(e)
        case Success(c) => Success(Flattened(acc.tIrr + c.tIrr, acc.fluxFactor + c.fluxFactor))
  }

  /** Once a level has raised, the later levels are never reached. */
  lemma {:induction false} FailureStopsTheLoop(pulseLengths: seq<real>, numsPulses: seq<int>, dwellTimes: seq<real>, i: nat, k: nat)
    requires i <= k <= |pulseLengths|
    requires SumLevels(pulseLengths, numsPulses, dwellTimes, i).Failure?
    ensures SumLevels(pulseLengths, numsPulses, dwellTimes, k) == SumLevels(pulseLengths, numsPulses, dwellTimes, i)
    decreases k
  {
    if k > i {
      FailureStopsTheLoop(pulseLengths, numsPulses, dwellTimes, i, k - 1);
    }
  }

  /** flatten_all_ph_levels: the additive combination of all levels. */
  method FlattenAllPhLevels(pulseLengths: seq<real>, numsPulses: seq<int>, dwellTimes: seq<real>) returns (r: Result<Flattened>)
    ensures r == SumLevels(pulseLengths, numsPulses, dwellTimes, |pulseLengths|)
  {
    var totalTIrr, totalFluxFactor := 0.0, 0.0;
    for i := 0 to |pulseLengths|
      invariant SumLevels(pulseLengths, numsPulses, dwellTimes, i) == Success(Flattened(totalTIrr, totalFluxFactor))
    {
      if i >= |numsPulses| || i >= |dwellTimes| {
        r := Failure(IndexError);
        FailureStopsTheLoop(pulseLengths, numsPulses, dwellTimes, i + 1, |pulseLengths|);
        return;
      }
      var single := FlattenPulseHistory(pulseLengths[i], numsPulses[i], dwellTimes[i]);
      if single.Failure? {
        r := Failure(single.error);
        FailureStopsTheLoop(pulseLengths, numsPulses, dwellTimes, i + 1, |pulseLengths|);
        return;
      }
      var tIrr, fluxFactor := single.value.tIrr, single.value.fluxFactor;
      if i == |dwellTimes| - 1 {
        totalTIrr := totalTIrr + tIrr;
      } else {
        if tIrr + dwellTimes[i] == 0.0 {
          r := Failure(ZeroDivisionError);
          FailureStopsTheLoop(pulseLengths, numsPulses, dwellTimes, i + 1, |pulseLengths|);
          return;
        }
        totalTIrr := totalTIrr + (tIrr + dwellTimes[i]);
        fluxFactor := numsPulses[i] as real * pulseLengths[i] / (tIrr + dwellTimes[i]);
      }
      totalFluxFactor := totalFluxFactor + fluxFactor;
    }
    r := Success(Flattened(totalTIrr, totalFluxFactor));
  }

  /** No levels: both totals stay zero. */
  lemma NoLevelsGiveZero(numsPulses: seq<int>, dwellTimes: seq<real>)
    ensures SumLevels([], numsPulses, dwellTimes, 0) == Success(Flattened(0.0, 0.0))
  {
  }

  /** One level: the combination is the single-level flattening. */
  lemma OneLevelIsFlattenPulseHistory(pulseLength: real, numPulses: int, dwellTime: real)
    ensures SumLevels([pulseLength], [numPulses], [dwellTime], 1) == FlattenPulseHistory(pulseLength, numPulses, dwellTime)
  {
  }

  /** Every level that is not the last one ends up with its duty cycle
      pulse / (pulse + dwell) as its factor, whatever its pulse count. */
  lemma NonLastFactorIsDutyCycle(pulseLengths: seq<real>, numsPulses: seq<int>, dwellTimes: seq<real>, i: nat)
    requires i < |pulseLengths| && i < |dwellTimes| - 1
    requires LevelContribution(pulseLengths, numsPulses, dwellTimes, i).Success?
    ensures pulseLengths[i] + dwellTimes[i] != 0.0
    ensures LevelContribution(pulseLengths, numsPulses, dwellTimes, i).value.fluxFactor
         == pulseLengths[i] / (pulseLengths[i] + dwellTimes[i])
  {
    var n, p, d := numsPulses[i] as real, pulseLengths[i], dwellTimes[i];
    var c := LevelContribution(pulseLengths, numsPulses, dwellTimes, i).value;
    assert c.tIrr == n * (p + d) != 0.0;
    assert c.fluxFactor * (n * (p + d)) == n * p;
    assert c.fluxFactor * (p + d) == p;
  }

  /** Sum of numsPulses[i] * (pulseLengths[i] + dwellTimes[i]) over the
      first `k` levels: every pulse followed by its dwell. */
  function ChainedTime(pulseLengths: seq<real>, numsPulses: seq<int>, dwellTimes: seq<real>, k: nat): real
    requires k <= |pulseLengths| && k <= |numsPulses| && k <= |dwellTimes|
  {
    if k == 0 then 0.0
    else
      var n, p, d := numsPulses[k - 1] as real, pulseLengths[k - 1], dwellTimes[k - 1];
      ChainedTime(pulseLengths, numsPulses, dwellTimes, k - 1) + n * (p + d)
  }

  /** Sum of the active times of the first `k` levels. */
  function TotalActiveTime(pulseLengths: seq<real>, numsPulses: seq<int>, k: nat): real
    requires k <= |pulseLengths| && k <= |numsPulses|
  {
    if k == 0 then 0.0
    else TotalActiveTime(pulseLengths, numsPulses, k - 1) + ActiveTime(pulseLengths[k - 1], numsPulses[k - 1])
  }

  /** The combined elapsed time in closed form: every pulse of every level is
      followed by its dwell, except that no dwell follows the last pulse of the
      level with index len(dwellTimes) - 1, if that level is among the first k. */
  lemma {:induction false} TotalTimeClosedForm(pulseLengths: seq<real>, numsPulses: seq<int>, dwellTimes: seq<real>, k: nat)
    requires k <= |pulseLengths|
    requires SumLevels(pulseLengths, numsPulses, dwellTimes, k).Success?
    ensures k <= |numsPulses| && k <= |dwellTimes|
    ensures SumLevels(pulseLengths, numsPulses, dwellTimes, k).value.tIrr
         == ChainedTime(pulseLengths, numsPulses, dwellTimes, k) - (if 0 < k == |dwellTimes| then dwellTimes[k - 1] else 0.0)
  {
    if k > 0 {
      TotalTimeClosedForm(pulseLengths, numsPulses, dwellTimes, k - 1);
    }
  }

  /** A physical level always contributes: at least its active time, with a
      factor in (0, 1]. */
  lemma PhysicalLevelContributes(pulseLengths: seq<real>, numsPulses: seq<int>, dwellTimes: seq<real>, i: nat)
    requires i < |pulseLengths| && i < |numsPulses| && i < |dwellTimes|
    requires pulseLengths[i] > 0.0 && numsPulses[i] >= 1 && dwellTimes[i] >= 0.0
    ensures LevelContribution(pulseLengths, numsPulses, dwellTimes, i).Success?
    ensures var c := LevelContribution(pulseLengths, numsPulses, dwellTimes, i).value;
      c.tIrr >= ActiveTime(pulseLengths[i], numsPulses[i]) && 0.0 < c.fluxFactor <= 1.0
  {
    FlattenPhysicalTrain(pulseLengths[i], numsPulses[i], dwellTimes[i]);
    if i != |dwellTimes| - 1 {
      var p, d := pulseLengths[i], dwellTimes[i];
      var f := FlattenPulseHistory(p, numsPulses[i], d).value;
      assert f.tIrr + d >= f.tIrr > 0.0;
      assert LevelContribution(pulseLengths, numsPulses, dwellTimes, i).Success?;
      NonLastFactorIsDutyCycle(pulseLengths, numsPulses, dwellTimes, i);
      assert 0.0 < p <= p + d;
      assert numsPulses[i] as real * (p + d) >= numsPulses[i] as real * p;
    }
  }

  /** Levels that are all physical and given as lists of one length always
      combine: the elapsed time is at least the active time, and the combined
      factor is positive and at most one per level. */
  lemma {:induction false} PhysicalLevelsCombine(pulseLengths: seq<real>, numsPulses: seq<int>, dwellTimes: seq<real>, k: nat)
    requires |numsPulses| == |pulseLengths| && |dwellTimes| == |pulseLengths|
    requires forall i :: 0 <= i < |pulseLengths| ==> pulseLengths[i] > 0.0 && numsPulses[i] >= 1 && dwellTimes[i] >= 0.0
    requires k <= |pulseLengths|
    ensures SumLevels(pulseLengths, numsPulses, dwellTimes, k).Success?
    ensures var t := SumLevels(pulseLengths, numsPulses, dwellTimes, k).value;
      t.tIrr >= TotalActiveTime(pulseLengths, numsPulses, k)
      && (k > 0 ==> 0.0 < t.fluxFactor) && t.fluxFactor <= k as real
  {
    if k > 0 {
      PhysicalLevelsCombine(pulseLengths, numsPulses, dwellTimes, k - 1);
      PhysicalLevelContributes(pulseLengths, numsPulses, dwellTimes, k - 1);
    }
  }

  /** The multi-level rows of tools/test_schedule_transforms.py. */
  lemma FlattenAllPhLevelsExamples()
    ensures SumLevels([1.0], [1], [1.0], 1) == Success(Flattened(1.0, 1.0))
    ensures SumLevels([2.0, 3.0], [2, 3], [2.0, 3.0], 2) == Success(Flattened(23.0, 11.0 / 10.0))
    ensures SumLevels([5.0, 5.0], [5, 6], [3.0, 3.0], 2) == Success(Flattened(85.0, 31.0 / 24.0))
  {
  }
}
