# Irradiation-schedule time arithmetic, modelled in Dafny

This project models the time arithmetic of the `tools/` scripts of an
activation-analysis repository: how a pulsed irradiation history is turned
into one equivalent constant-flux interval, how the dwell and total
irradiation time follow from a duty cycle, and how values are pulled out of
nested parameter dictionaries by key prefix. All quantities are exact
`real`s, so the exact equalities the repository's tests expect (`2/3`,
`8/26`, `11/10`, `31/24`) are proved as stated. Python exceptions raised by
the code itself are modelled as results: `ZeroDivisionError` for a division
by a zero time or a zero pulse count, `IndexError` for a list indexed past its
end (including the empty solution list of an equation with no solution).

- `outcomes.dfy` (module `Outcomes`): the error kinds and the `Result` type.
- `schedule_transforms.dfy` (module `ScheduleTransforms`): `flatten_pulse_history`
  as a function, and `flatten_all_ph_levels` as a method with its loop, proved
  against the specification function `SumLevels` (the per-level step is
  `LevelContribution`). The combination is additive: elapsed times add up, and
  so do the per-level flux factors; every level except the one at index
  `len(dwell_times) - 1` is charged its dwell once more, and its factor is
  recomputed against that extended time.
- `script_template.dfy` (module `ScriptTemplate`): `calc_time_params` as a method
  that allocates the two 2-D arrays and fills them row by row (`FillRow` is its
  inner loop), proved against the specification function `PulseLengthList` and
  the cell predicate `CellHolds`. The equation solve is modelled by its closed
  form `dwell = pulse * (1 - dc) / dc`, and `DwellTimeIsTheSolution` proves
  that this is exactly the solution of `pulse / (pulse + dwell) == dc`.
- `calc_tirr_flux.dfy` (module `CalcTirrFlux`): `search_for_match` as a
  recursive method over a `Value` datatype (a scalar, or a dictionary given as
  its entries in iteration order), proved against the specification function
  `Matches`.

`flatten_all_ph_levels` is the only multi-level combiner in
tools/schedule_transforms.py; it adds the levels' results.

## Model

| member | source | states |
|---|---|---|
| `ScheduleTransforms.FlattenPulseHistory` | tools/schedule_transforms.py:1-19 | fails with ZeroDivisionError exactly when the elapsed time is zero; otherwise the time is that of n pulses and n-1 dwells (none after the last pulse), and factor times time equals the active time n * pulse (fluence preserved) |
| `ScheduleTransforms.SinglePulseIsUnchanged` | tools/schedule_transforms.py:16-17 | one pulse flattens to itself, factor 1, whatever the dwell |
| `ScheduleTransforms.NoDwellKeepsFullFlux` | tools/schedule_transforms.py:16-17 | with zero dwell the time is n * pulse and the factor is 1 |
| `ScheduleTransforms.FlattenPhysicalTrain` | tools/schedule_transforms.py:16-17 | for pulse > 0, n >= 1, dwell >= 0 flattening succeeds, time >= active time > 0 and 0 < factor <= 1 |
| `ScheduleTransforms.FlattenPulseHistoryExamples` | tools/test_schedule_transforms.py:4-15 | (1,1,1) -> (1,1), (1,2,1) -> (3,2/3), (2,4,6) -> (26,8/26) |
| `ScheduleTransforms.LevelContribution` | tools/schedule_transforms.py:33-43 | a short numbers or dwell list raises IndexError; an in-range level raises ZeroDivisionError exactly when its pulse-train time is zero or, for a non-last level, its extended time n * (pulse + dwell) is zero, and succeeds otherwise; the level at index len(dwell_times)-1 adds its plain pulse-train time, any other level adds n * (pulse + dwell); either way factor times time is the level's active time |
| `ScheduleTransforms.FailureStopsTheLoop` | tools/schedule_transforms.py:33-43 | the first exception ends the loop: later levels do not change the outcome |
| `ScheduleTransforms.FlattenAllPhLevels` | tools/schedule_transforms.py:22-44 | the loop returns exactly the additive totals over all levels, or the first level's exception |
| `ScheduleTransforms.NoLevelsGiveZero` | tools/schedule_transforms.py:31-32 | no levels give (0, 0) |
| `ScheduleTransforms.OneLevelIsFlattenPulseHistory` | tools/schedule_transforms.py:33-39 | one level combines to its single-level flattening |
| `ScheduleTransforms.NonLastFactorIsDutyCycle` | tools/schedule_transforms.py:40-42 | a level that is not the last gets the factor pulse / (pulse + dwell), independent of its pulse count |
| `ScheduleTransforms.TotalTimeClosedForm` | tools/schedule_transforms.py:38-41 | the total time is the sum of n * (pulse + dwell) over the levels, minus the last level's dwell when the last level (by dwell-list length) is included |
| `ScheduleTransforms.PhysicalLevelContributes` | tools/schedule_transforms.py:34-42 | a physical level contributes at least its active time with a factor in (0, 1] |
| `ScheduleTransforms.PhysicalLevelsCombine` | tools/schedule_transforms.py:31-44 | equal-length physical levels always combine; total time >= total active time; 0 < total factor <= number of levels |
| `ScheduleTransforms.FlattenAllPhLevelsExamples` | tools/test_schedule_transforms.py:17-30 | ([1],[1],[1]) -> (1,1), ([2,3],[2,3],[2,3]) -> (23,11/10), ([5,5],[5,6],[3,3]) -> (85,31/24) |
| `ScriptTemplate.PulseLength` | tools/script_template.py:22 | zero pulses raise ZeroDivisionError; otherwise the pulses together last the active burn time |
| `ScriptTemplate.SolveDwellTime` | tools/script_template.py:25-27 | a returned dwell satisfies pulse / (pulse + dwell) == duty cycle with a non-zero denominator; no solution raises IndexError |
| `ScriptTemplate.DwellTimeIsTheSolution` | tools/script_template.py:25-26 | the dwell is returned if and only if it solves the duty-cycle equation for a non-zero pulse (so a zero duty cycle has none) |
| `ScriptTemplate.IrradiationTimeAddsDwells` | tools/script_template.py:22-28 | the irradiation time is the active burn time plus num - 1 dwells |
| `ScriptTemplate.FullDutyCycle` | tools/script_template.py:25-28 | duty cycle 1 gives dwell 0 and irradiation time equal to the active burn time |
| `ScriptTemplate.DwellIsNonNegative` | tools/script_template.py:25-28 | for burn time > 0, num >= 1 and 0 < dc <= 1 the dwell is >= 0 and the irradiation time >= the active burn time |
| `ScriptTemplate.IrradiationTimeIsFlattenedTime` | tools/script_template.py:28 | the irradiation time is the elapsed time flatten_pulse_history computes for the same pulses and dwell, and that flattening's factor scales it back to the active burn time |
| `ScriptTemplate.RowPulseLength` | tools/script_template.py:21-27 | a row succeeds iff its count is non-zero and every duty cycle has a dwell; it then yields the row's pulse length, else ZeroDivisionError or IndexError |
| `ScriptTemplate.PulseLengthListRows` | tools/script_template.py:21-23 | the calculation succeeds iff every row does, and then the list has one entry burn time / num per pulse count, in order |
| `ScriptTemplate.FailureStopsTheRows` | tools/script_template.py:21-27 | the first exception ends the calculation: later rows do not change the outcome |
| `ScriptTemplate.FillRow` | tools/script_template.py:24-29 | fills every cell of one row with the solved dwell and the irradiation time, reports whether every duty cycle had a solution, and leaves every other row unchanged |
| `ScriptTemplate.CalcTimeParams` | tools/script_template.py:6-30 | raises the first row's exception, or returns the pulse-length list and two fresh, distinct len(num_pulses) x len(duty_cycles) arrays whose every cell holds the solved dwell and the irradiation time |
| `CalcTirrFlux.SearchForMatch` | tools/calc_tirr_flux.py:6-17 | the recursive search returns exactly the in-order matches of the nested dictionary |
| `CalcTirrFlux.MatchesAreFound` | tools/calc_tirr_flux.py:11-16 | every match is the value of a key starting with the search string, at some depth, reached only through non-matching keys |
| `CalcTirrFlux.MatchesBoundedByKeys` | tools/calc_tirr_flux.py:11-16 | there are never more matches than keys at all depths |
| `CalcTirrFlux.MatchesInPrefix` | tools/calc_tirr_flux.py:11-16 | the matches of the first n entries depend on those entries only |
| `CalcTirrFlux.MatchesOfConcat` | tools/calc_tirr_flux.py:14-16 | matches of consecutive entries are spliced in iteration order |
| `CalcTirrFlux.EntryContribution` | tools/calc_tirr_flux.py:11-16 | an entry contributes, in place, its value if its key matches (never searching inside it), the nested matches if it does not and the value is a dictionary, and nothing otherwise |
| `CalcTirrFlux.EmptySearchGivesTopLevelValues` | tools/calc_tirr_flux.py:12-13 | an empty search string yields exactly the top-level values, in order |
| `CalcTirrFlux.EmptyDictHasNoMatches` | tools/calc_tirr_flux.py:10-17 | an empty dictionary yields no matches |

## Left out

- Floating point: every quantity is an exact `real`; rounding of Python floats and numpy arrays is not modelled.
- ScriptTemplate.SolveDwellTime: the symbolic solver is replaced by the closed form of the linear equation; when the pulse length and the duty cycle are both zero every non-zero dwell solves the equation, and the model treats that degenerate case like the other no-unique-solution cases (IndexError) without modelling what the solver returns there.
- Numbers of pulses are Python integers (`int`); other numeric types passed as counts are not modelled.
- CalcTirrFlux.SearchForMatch: dictionary keys are strings and values are either dictionaries or opaque scalars; non-string keys (whose `startswith` would raise) and mappings that are not `dict` instances are not modelled. Key uniqueness is not needed by any property and is not imposed. Self-referential or deeper-than-the-recursion-limit dictionaries (RecursionError) are not modelled; a `Value` is a finite tree.
- `process_out_params`, `parse_args` and `main` of tools/calc_tirr_flux.py: they load an external module at run time and parse the command line, and `main` uses names it never defines; its time formula is the one `IrradiationTime` and `PulseTrainTime` already model.
- `parse_args`, `read_yaml` and `main` of tools/script_template.py: command-line and YAML file input.
- tools/comp_res_iter.py and tools/write_to_sqlite.py: data loading through external libraries, data-frame filtering, plotting and database persistence; no computational logic.
