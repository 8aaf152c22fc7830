/** Duty-cycle timing parameters (calc_time_params in tools/script_template.py).

    The active burn time is divided into `num` equal pulses; for each duty
    cycle the dwell between pulses is the one that makes the fraction of time
    spent pulsing equal to that duty cycle, and the total irradiation time
    charges that dwell between consecutive pulses only. */
module ScriptTemplate {
  import opened Outcomes
  import ScheduleTransforms

  /** pulse_length = active_burn_time / num: the `num` pulses together last
      the active burn time. A zero count is a division by zero. */
  function PulseLength(activeBurnTime: real, num: int): (r: Result<real>)
    ensures r.Failure? <==> num == 0
    ensures r.Failure? ==> r.error == ZeroDivisionError
    ensures r.Success? ==> r.value * num as real == activeBurnTime
  {
    if num == 0 then Failure(ZeroDivisionError) else Success(activeBurnTime / num as real)
  }

  /** The dwell obtained by solving pulse / (pulse + dwell) == dutyCycle for
      the dwell, taken as the closed form of that linear equation. When the
      equation has no unique solution the solution list is empty and taking
      its first element raises IndexError. */
  function SolveDwellTime(pulseLength: real, dutyCycle: real): (r: Result<real>)
    ensures r.Success? ==> pulseLength + r.value != 0.0 && pulseLength / (pulseLength + r.value) == dutyCycle
    ensures r.Failure? ==> r.error == IndexError
  {
    if pulseLength == 0.0 || dutyCycle == 0.0 then Failure(IndexError)
    else Success(pulseLength * (1.0 - dutyCycle) / dutyCycle)
  }

  /** The returned dwell is exactly the solution of the duty-cycle equation:
      it is returned if and only if it solves the equation for a non-zero
      pulse. In particular a duty cycle of zero has no solution. */
  lemma DwellTimeIsTheSolution(pulseLength: real, dutyCycle: real, dwell: real)
    ensures SolveDwellTime(pulseLength, dutyCycle) == Success(dwell)
        <==> pulseLength != 0.0 && pulseLength + dwell != 0.0 && pulseLength / (pulseLength + dwell) == dutyCycle
  {
    if pulseLength != 0.0 && pulseLength + dwell != 0.0 && pulseLength / (pulseLength + dwell) == dutyCycle {
      assert pulseLength == dutyCycle * (pulseLength + dwell);
      assert dutyCycle != 0.0;
      assert dwell * dutyCycle == pulseLength * (1.0 - dutyCycle);
      assert dwell == pulseLength * (1.0 - dutyCycle) / dutyCycle;
    }
  }

  /** The total irradiation time of `num` pulses with a dwell after every
      pulse but the last. */
  function IrradiationTime(pulseLength: real, num: int, dwell: real): real
  {
    pulseLength * num as real + dwell * (num - 1) as real
  }

  /** Since the pulses add up to the active burn time, the irradiation time
      is the active burn time plus the num - 1 dwells. */
  lemma IrradiationTimeAddsDwells(activeBurnTime: real, num: int, dwell: real)
    requires num != 0
    ensures IrradiationTime(PulseLength(activeBurnTime, num).value, num, dwell)
         == activeBurnTime + dwell * (num - 1) as real
  {
  }

  /** A duty cycle of one needs no dwell: the irradiation time is the active
      burn time. */
  lemma FullDutyCycle(activeBurnTime: real, num: int)
    requires num != 0 && activeBurnTime != 0.0
    ensures SolveDwellTime(PulseLength(activeBurnTime, num).value, 1.0) == Success(0.0)
    ensures IrradiationTime(PulseLength(activeBurnTime, num).value, num, 0.0) == activeBurnTime
  {
    var p := PulseLength(activeBurnTime, num).value;
    assert p * num as real == activeBurnTime;
    assert p != 0.0;
  }

  /** For a positive burn time, a positive pulse count and a duty cycle in
      (0, 1] the dwell is never negative, so irradiation never takes less
      than the active burn time. */
  lemma DwellIsNonNegative(activeBurnTime: real, num: int, dutyCycle: real)
    requires activeBurnTime > 0.0 && num >= 1 && 0.0 < dutyCycle <= 1.0
    ensures SolveDwellTime(PulseLength(activeBurnTime, num).value, dutyCycle).Success?
    ensures var p := PulseLength(activeBurnTime, num).value;
      var dwell := SolveDwellTime(p, dutyCycle).value;
      dwell >= 0.0 && IrradiationTime(p, num, dwell) >= activeBurnTime
  {
    var p := PulseLength(activeBurnTime, num).value;
    assert p * num as real == activeBurnTime;
    assert p > 0.0;
    var dwell := SolveDwellTime(p, dutyCycle).value;
    assert p * (1.0 - dutyCycle) >= 0.0;
    assert dwell >= 0.0;
    assert dwell * (num - 1) as real >= 0.0;
  }

  /** The irradiation time is the elapsed time that flatten_pulse_history
      computes for the same pulses and dwell; whenever that flattening
      succeeds, its flux factor scales the time back to the active burn time. */
  lemma IrradiationTimeIsFlattenedTime(activeBurnTime: real, num: int, dwell: real)
    requires num != 0
    ensures var p := PulseLength(activeBurnTime, num).value;
      var f := ScheduleTransforms.FlattenPulseHistory(p, num, dwell);
      f.Success? <==> IrradiationTime(p, num, dwell) != 0.0
    ensures var p := PulseLength(activeBurnTime, num).value;
      var f := ScheduleTransforms.FlattenPulseHistory(p, num, dwell);
      f.Success? ==> f.value.tIrr == IrradiationTime(p, num, dwell) && f.value.fluxFactor * f.value.tIrr == activeBurnTime
  {
    var p := PulseLength(activeBurnTime, num).value;
    assert ScheduleTransforms.PulseTrainTime(p, num, dwell) == IrradiationTime(p, num, dwell);
    assert ScheduleTransforms.ActiveTime(p, num) == activeBurnTime;
  }

  /** What row `num` of the loop does before any cell is written: compute the
      pulse length (ZeroDivisionError for num == 0), then solve for the dwell
      at every duty cycle (IndexError at the first one without a solution). */
  function RowPulseLength(activeBurnTime: real, dutyCycles: seq<real>, num: int): (r: Result<real>)
    ensures r.Success? <==> (num != 0 &&
      forall j :: 0 <= j < |dutyCycles| ==> SolveDwellTime(activeBurnTime / num as real, dutyCycles[j]).Success?)
    ensures r.Success? ==> r == PulseLength(activeBurnTime, num)
    ensures r.Failure? ==> r.error == if num == 0 then ZeroDivisionError else IndexError
  {
    match PulseLength(activeBurnTime, num)
    case Failure(e) => Failure(e)
    case Success(p) =>
      if exists j :: 0 <= j < |dutyCycles| && SolveDwellTime(p, dutyCycles[j]).Failure? then Failure(IndexError)
      else Success(p)
  }

  /** The pulse lengths of the rows for `nums`, in order, or the exception of
      the first row that raises one. */
  function PulseLengthList(activeBurnTime: real, dutyCycles: seq<real>, nums: seq<int>): Result<seq<real>>
  {
    if nums == [] then Success([])
    else
      match PulseLengthList(activeBurnTime, dutyCycles, nums[..|nums| - 1])
      case Failure(e) => Failure(e)
      case Success(lengths) =>
        match RowPulseLength(activeBurnTime, dutyCycles, nums[|nums| - 1])
        case Failure(e) => Failure(e)
        case Success(p) => Success(lengths + [p])
  }

  /** The calculation succeeds exactly when every row does, and then the
      list holds one pulse length per pulse count, in order. */
  lemma {:induction false} PulseLengthListRows(activeBurnTime: real, dutyCycles: seq<real>, nums: seq<int>)
    ensures PulseLengthList(activeBurnTime, dutyCycles, nums).Success?
        <==> forall i :: 0 <= i < |nums| ==> RowPulseLength(activeBurnTime, dutyCycles, nums[i]).Success?
    ensures PulseLengthList(activeBurnTime, dutyCycles, nums).Success? ==>
      var lengths := PulseLengthList(activeBurnTime, dutyCycles, nums).value;
      |lengths| == |nums| &&
      forall i :: 0 <= i < |nums| ==> nums[i] != 0 && lengths[i] == activeBurnTime / nums[i] as real
  {
    if nums != [] {
      var prefix := nums[..|nums| - 1];
      PulseLengthListRows(activeBurnTime, dutyCycles, prefix);
      assert forall i :: 0 <= i < |prefix| ==> prefix[i] == nums[i];
    }
  }

  /** Once a row has raised, the later rows are never reached. */
  lemma {:induction false} FailureStopsTheRows(activeBurnTime: real, dutyCycles: seq<real>, nums: seq<int>, i: nat)
    requires i <= |nums|
    requires PulseLengthList(activeBurnTime, dutyCycles, nums[..i]).Failure?
    ensures PulseLengthList(activeBurnTime, dutyCycles, nums) == PulseLengthList(activeBurnTime, dutyCycles, nums[..i])
    decreases |nums|
  {
    if i < |nums| {
      assert nums[..|nums| - 1][..i] == nums[..i];
      FailureStopsTheRows(activeBurnTime, dutyCycles, nums[..|nums| - 1], i);
    } else {
      assert nums[..i] == nums;
    }
  }

  /** The three results of calc_time_params. The two arrays have one row per
      pulse count and one column per duty cycle. */
  datatype TimeParams = TimeParams(pulseLengthList: seq<real>, dwellTimeArr: array2<real>, tIrrArr: array2<real>)

  /** Cell (i, j) of both arrays holds the dwell for pulse length `p` and
      duty cycle dutyCycles[j], and the irradiation time of `num` such pulses. */
  ghost predicate CellHolds(dwellTimeArr: array2<real>, tIrrArr: array2<real>, i: nat, j: nat, p: real, num: int, dutyCycle: real)
    reads dwellTimeArr, tIrrArr
    requires i < dwellTimeArr.Length0 && j < dwellTimeArr.Length1
    requires i < tIrrArr.Length0 && j < tIrrArr.Length1
  {
    SolveDwellTime(p, dutyCycle) == Success(dwellTimeArr[i, j])
    && tIrrArr[i, j] == IrradiationTime(p, num, dwellTimeArr[i, j])
  }

  /** The inner loop of calc_time_params for row `numIdx`: solves for the
      dwell at each duty cycle in turn and writes the row's two cells. It
      stops at the first duty cycle without a solution; no other row changes. */
  method FillRow(dwellTimeArr: array2<real>, tIrrArr: array2<real>, numIdx: nat, pulseLength: real, num: int, dutyCycles: seq<real>)
    returns (solved: bool)
    requires dwellTimeArr != tIrrArr
    requires numIdx < dwellTimeArr.Length0 == tIrrArr.Length0
    requires dwellTimeArr.Length1 == tIrrArr.Length1 == |dutyCycles|
    modifies dwellTimeArr, tIrrArr
    ensures solved <==> forall j :: 0 <= j < |dutyCycles| ==> SolveDwellTime(pulseLength, dutyCycles[j]).Success?
    ensures solved ==> forall j :: 0 <= j < |dutyCycles| ==>
      CellHolds(dwellTimeArr, tIrrArr, numIdx, j, pulseLength, num, dutyCycles[j])
    ensures forall i, j :: 0 <= i < dwellTimeArr.Length0 && i != numIdx && 0 <= j < |dutyCycles| ==>
      dwellTimeArr[i, j] == old(dwellTimeArr[i, j]) && tIrrArr[i, j] == old(tIrrArr[i, j])
  {
    for dutyCycleIdx := 0 to |dutyCycles|
      invariant forall j :: 0 <= j < dutyCycleIdx ==> SolveDwellTime(pulseLength, dutyCycles[j]).Success?
      invariant forall j :: 0 <= j < dutyCycleIdx ==>
        CellHolds(dwellTimeArr, tIrrArr, numIdx, j, pulseLength, num, dutyCycles[j])
      invariant forall i, j :: 0 <= i < dwellTimeArr.Length0 && i != numIdx && 0 <= j < |dutyCycles| ==>
        dwellTimeArr[i, j] == old(dwellTimeArr[i, j]) && tIrrArr[i, j] == old(tIrrArr[i, j])
    {
      var dwellTimeSol := SolveDwellTime(pulseLength, dutyCycles[dutyCycleIdx]);
      if dwellTimeSol.Failure? {
        return false;
      }
      dwellTimeArr[numIdx, dutyCycleIdx] := dwellTimeSol.value;
      tIrrArr[numIdx, dutyCycleIdx] := pulseLength * num as real + dwellTimeSol.value * (num - 1) as real;
    }
    return true;
  }

  /** calc_time_params: fills both arrays row by row; the first exception
      raised ends the calculation. */
  method CalcTimeParams(activeBurnTime: real, dutyCycles: seq<real>, nums: seq<int>) returns (r: Result<TimeParams>)
    ensures r.Failure? <==> PulseLengthList(activeBurnTime, dutyCycles, nums).Failure?
    ensures r.Failure? ==> r.error == PulseLengthList(activeBurnTime, dutyCycles, nums).error
    ensures r.Success? ==>
      var t := r.value;
      t.pulseLengthList == PulseLengthList(activeBurnTime, dutyCycles, nums).value
      && |t.pulseLengthList| == |nums|
      && fresh(t.dwellTimeArr) && fresh(t.tIrrArr) && t.dwellTimeArr != t.tIrrArr
      && t.dwellTimeArr.Length0 == t.tIrrArr.Length0 == |nums|
      && t.dwellTimeArr.Length1 == t.tIrrArr.Length1 == |dutyCycles|
      && forall i, j :: 0 <= i < |nums| && 0 <= j < |dutyCycles| ==>
           CellHolds(t.dwellTimeArr, t.tIrrArr, i, j, t.pulseLengthList[i], nums[i], dutyCycles[j])
  {
    var tIrrArr := new real[|nums|, |dutyCycles|];
    var dwellTimeArr := new real[|nums|, |dutyCycles|];
    var pulseLengthList := [];
    for numIdx := 0 to |nums|
      invariant PulseLengthList(activeBurnTime, dutyCycles, nums[..numIdx]) == Success(pulseLengthList)
      invariant |pulseLengthList| == numIdx
      invariant forall i, j :: 0 <= i < numIdx && 0 <= j < |dutyCycles| ==>
        CellHolds(dwellTimeArr, tIrrArr, i, j, pulseLengthList[i], nums[i], dutyCycles[j])
    {
      var num := nums[numIdx];
      assert nums[..numIdx + 1][..numIdx] == nums[..numIdx];
      if num == 0 {
        r := Failure(ZeroDivisionError);
        FailureStopsTheRows(activeBurnTime, dutyCycles, nums, numIdx + 1);
        return;
      }
      var pulseLength := activeBurnTime / num as real;
      var solved := FillRow(dwellTimeArr, tIrrArr, numIdx, pulseLength, num, dutyCycles);
      if !solved {
        r := Failure(IndexError);
        FailureStopsTheRows(activeBurnTime, dutyCycles, nums, numIdx + 1);
        return;
      }
      pulseLengthList := pulseLengthList + [pulseLength];
    }
    assert nums[..|nums|] == nums;
    r := Success(TimeParams(pulseLengthList, dwellTimeArr, tIrrArr));
  }
}
