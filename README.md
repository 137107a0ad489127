# django_dramatiq_charts: the chart forms, modelled in Dafny

This project models the forms of `django_dramatiq_charts`. They turn a period of
time and a few filter choices into the data behind two charts over the Dramatiq
task table:

- The **load chart** cuts the window into ticks of `time_interval` seconds. For
  every actor and tick it counts the tasks of that actor that were at work at the
  tick.
- The **timeline** gives one bar per task, ordered by actor and then by end time.

Both forms first pass a **validation gate**: the start must come before the end,
and the window may span at most three days. The load chart's interval must lie
between 1 s and one day, and the window must hold at least two intervals. Both
forms then run the same **query**: tasks that overlap the window, narrowed by the
optional actor, queue and status choices and by a filter the host application can
configure.

The modules follow that structure:

| module | file | what it holds |
|---|---|---|
| `Tasks` | tasks.dfy | the task record, `Option` |
| `Time` | time.dfy | microsecond timestamps, truncation to the minute and to the second, ceiling and truncating division |
| `Strings` | strings.dfy | Python's ordering of `str`, sortedness, distinctness |
| `Query` | query.dfy | the query both charts run |
| `Validation` | validation.dfy | the interval field and the form-wide `clean` |
| `LoadSpec` | load_spec.dfy | what the load chart computes, as functions: tick axis, marks, cells, rows |
| `LoadChart` | load_chart.dfy | the load chart's loops, as methods proved against `LoadSpec` |
| `Timeline` | timeline.dfy | the timeline rows, the two stable sorts and the ordering they give |

Times are integer microseconds. A `datetime` becomes its offset in microseconds
since 0001-01-01 00:00, an epoch on a whole minute, so that truncation to the
minute or the second is the remainder of a division. A `timedelta` becomes a
difference of two offsets.

In the load chart, the two float computations become exact integer arithmetic:
- `math.ceil(seconds / tick_sec)` becomes `CeilDiv`;
- `int(seconds / tick_sec)` becomes `TruncDiv`.

The load chart's dictionary from formatted tick times to lists of actors becomes a
`map<int, seq<string>>`. Its keys are the tick timestamps, and a `seq` of those
keys keeps their insertion order.

Python's `sorted(..., reverse=True)` and `list.sort(key=..., reverse=True)` become
insertion sorts on sequences. They are proved to return a permutation in
descending order, and the list sort is also proved stable.

The model follows `django_dramatiq_charts/forms.py` as written, including
where other descriptions of the package say otherwise:
- The tick axis has `ceil(span / tick) + 1` entries (the axis is
  `range(0, span + tick, tick)`), not `floor(span / tick) + 1`.
- Timeline rows hold actor, status, duration, start and end. They have no queue
  and no colour.
- The largest window is three days. The test file under
  `django_dramatiq_charts/tests/` expects seven days, list-valued filters and other
  heights. That file belongs to another revision of the forms, so the model takes
  the largest span as a parameter, `maxSpan`, and uses three days by default
  (`DefaultMaxSpan`).

## Model

| member | source | states |
|---|---|---|
| Validation.CleanInterval | django_dramatiq_charts/forms.py:86-89 | The interval is accepted exactly when it is present and between 1 and 86400 seconds, and it is then kept unchanged. A missing value is reported as `Required`. |
| Validation.Clean | django_dramatiq_charts/forms.py:69-82 | The form passes exactly when start < end, the span is at most `maxSpan`, and a non-zero interval fits twice into the window. Each error is reported exactly under its condition, and the first failing check wins. |
| Validation.ValidateLoadForm | django_dramatiq_charts/forms.py:69-89 | The load form has no error exactly when the interval is in [1, 86400], start < end, the span is at most `maxSpan` and the window holds two intervals. An interval that fails its own field check never also gives "interval too long". |
| Validation.ValidateTimelineForm | django_dramatiq_charts/forms.py:170 | The timeline form, which has no interval field, passes exactly when start < end and the span is at most `maxSpan`. It never reports "interval too long". |
| Validation.MaxSpanIsInclusive | django_dramatiq_charts/forms.py:77-78 | A window of exactly three days passes. One microsecond more gives `RangeTooLarge`. |
| Validation.FormCases | tests/test_charts.py:66-100 | The tests' cases have the same outcomes here: a reversed window, a four-day window, a 100 s interval, and a zero interval. A zero interval gives a field error and no form error. A 10 s interval is valid. |
| Query.Filter | django_dramatiq_charts/forms.py:102-113 | The query keeps exactly the tasks that overlap the window, match every non-empty choice and pass the configured filter. Each kept task appears as often as in the table. |
| Query.FilterAppend | django_dramatiq_charts/forms.py:102-113 | Filtering a table made of two parts gives the filtered first part followed by the filtered second part. |
| Query.KeepsOrder | django_dramatiq_charts/forms.py:102-113 | Two records the query keeps come out in the order they had in the table, with only the kept records of the stretches around them. |
| Time.TruncToMinute | django_dramatiq_charts/forms.py:95-96 | `replace(second=0, microsecond=0)` gives the whole minute at or before the time, less than a minute before it. |
| Time.TruncToMinuteMonotone | django_dramatiq_charts/forms.py:95-96 | Truncating both bounds keeps start <= end. |
| Time.TruncToSecond | django_dramatiq_charts/forms.py:193-195 | The `%S` format drops the fraction: the result is the whole second at or before the time. |
| Time.CeilDiv | django_dramatiq_charts/forms.py:132 | `math.ceil(a / b)` is the q with b(q-1) < a <= bq. |
| Time.TruncDiv | django_dramatiq_charts/forms.py:135 | `int(a / b)` rounds toward zero: bq <= a < b(q+1) when a >= 0, and the mirror case when a < 0. |
| LoadSpec.TickCount | django_dramatiq_charts/forms.py:119-120 | The tick axis is never empty. |
| LoadSpec.TicksShape | django_dramatiq_charts/forms.py:119-120 | The axis is `range(0, span + tick, tick)` from the window start: exactly the offsets below span + tick, strictly rising. Its last tick is at or after the window end, by less than one tick. The axis ends exactly on the window end iff the tick divides the span. |
| LoadSpec.FirstTick | django_dramatiq_charts/forms.py:132-133 | A task's first tick is on or after the window start and on or after the task's clamped start. |
| LoadSpec.MarkedTickIsOnAxis | django_dramatiq_charts/forms.py:136-142 | Every tick a task marks is on the axis, so the lookup `actor_wt_by_ticks[timestamp]` never misses. |
| LoadSpec.MarksAsRange | django_dramatiq_charts/forms.py:130-142 | A task that is not skipped marks exactly one run of consecutive ticks: from its first tick, for at most `Steps` ticks, stopping at the last tick at or before the window end. |
| LoadSpec.Cell | django_dramatiq_charts/forms.py:149-157 | A cell that is not empty holds a positive count. A zero count is shown as an empty cell. |
| LoadSpec.CellEmptyIffUnmarked | django_dramatiq_charts/forms.py:149-157 | A cell is empty exactly when no task of that actor marks that tick. |
| LoadSpec.ActorSetSnoc | django_dramatiq_charts/forms.py:125-129 | A task adds its actor to the categories exactly when it is not skipped. |
| LoadSpec.RowConservation | django_dramatiq_charts/forms.py:144-157 | The counts in an actor's row add up to the number of ticks that actor's tasks mark in all. |
| LoadSpec.CoveringTaskMarksEveryTick | django_dramatiq_charts/forms.py:122-142 | A task that covers the whole window, and ran less than a day, marks every tick up to the window end and none after it. |
| LoadSpec.TooLongTasksIgnored | django_dramatiq_charts/forms.py:125-127 | Tasks that ran a day or more give no category and mark no cell. |
| LoadSpec.TwoMinuteWindowTicks | tests/test_charts.py:40-62 | A window of one minute on either side of now gives 13 ticks at 10 s and 121 ticks at 1 s. |
| LoadSpec.ShortTaskMarksNextTick | django_dramatiq_charts/forms.py:130-142 | In a one-minute window with 10 s ticks, a task from 5 s to 7 s marks only the 10 s tick. Two such tasks count 2 there and nothing elsewhere. |
| LoadChart.SortDescending | django_dramatiq_charts/forms.py:143 | `sorted(reverse=True)` returns a permutation of its input in descending order. |
| LoadChart.SortDescendingDistinct | django_dramatiq_charts/forms.py:143 | Sorting the distinct categories gives them strictly descending, with the same elements. |
| LoadChart.BuildAxis | django_dramatiq_charts/forms.py:119-120 | The dictionary has exactly the tick timestamps as keys, each with an empty list, and the keys in insertion order are exactly the tick axis. |
| LoadChart.MarkTicks | django_dramatiq_charts/forms.py:133-142 | The inner loop appends the actor once at each of the `steps` ticks from the first tick that is not after the window end. Every other list is unchanged. The dictionary keeps its keys. |
| LoadChart.MarkTask | django_dramatiq_charts/forms.py:123-142 | Marking one task that is not skipped raises each tick's count of its actor by one exactly where the task marks the tick. |
| LoadChart.MarkTasks | django_dramatiq_charts/forms.py:121-142 | After the loop over the tasks, each tick's list holds every actor as often as its tasks mark that tick. The categories are distinct and are exactly the actors of the tasks that are not skipped. |
| LoadChart.CountTable | django_dramatiq_charts/forms.py:144-157 | The dates list exactly the dictionary's keys, in axis order. Each category's row holds, per tick, that actor's count, or an empty cell for none. |
| LoadChart.GetChartData | django_dramatiq_charts/forms.py:93-167 | An empty query gives the empty marker, and only an empty query does. Otherwise: the dates are the tick axis over the minute-truncated window; the categories are strictly descending and exactly the actors of the tasks not skipped; the height is 200 + 25 per category; every row equals the specification row, and its sum equals that actor's total marks. |
| Strings.LexLessTotal | django_dramatiq_charts/forms.py:143 | Python's string order is total: two different actor names are always ordered. |
| Strings.LexAtLeastFacts | django_dramatiq_charts/forms.py:143 | `>=` on actor names is reflexive, total, antisymmetric and transitive, so sorting on it is well defined. |
| Strings.LexLessPrefix | django_dramatiq_charts/forms.py:210 | A common prefix does not change the order of two actor names. |
| Strings.StrictlyDescendingUnique | django_dramatiq_charts/forms.py:143 | Two strictly descending lists with the same elements are equal, so the categories depend only on the set of actors. |
| Timeline.TaskDurationMs | django_dramatiq_charts/forms.py:52-54 | The duration is the task's length in whole milliseconds, rounded toward zero. |
| Timeline.Rows | django_dramatiq_charts/forms.py:200-208 | There is one row per task, in query order. Each row carries the task's actor, status, duration, start and end. |
| Timeline.CollectRows | django_dramatiq_charts/forms.py:200-208 | The loop builds exactly those rows, in query order. |
| Timeline.KeyFacts | django_dramatiq_charts/forms.py:209-210 | Each sort key orders rows totally and transitively, and the ties are exactly the rows with equal keys. |
| Timeline.ClassCommute | django_dramatiq_charts/forms.py:209-210 | Taking the rows that tie on one key and then on the other gives the same rows, in the same order, as the reverse. |
| Timeline.InsertDesc | django_dramatiq_charts/forms.py:209 | Inserting a row after every row at least as large keeps the order descending. It adds the row at the end of its ties and keeps any earlier secondary order. |
| Timeline.StableSortDesc | django_dramatiq_charts/forms.py:209-210 | `list.sort(key, reverse=True)` returns a permutation in descending key order and keeps the order of rows with equal keys. Rows that were in descending order of another key stay in that order within each tie. |
| Timeline.SortRows | django_dramatiq_charts/forms.py:209-210 | The two sorts give the rows by actor descending, then by end descending. Rows that tie on both keys keep their relative order. |
| Timeline.GetChartData | django_dramatiq_charts/forms.py:170-218 | An empty query gives the empty marker, and only an empty query does. Otherwise: the filter data echoes the five choices, with the bounds to the second; the rows are a permutation of one row per task, ordered by actor descending and then by end descending; rows that tie on both keys keep query order. |
| Timeline.GreatestActorFirst | django_dramatiq_charts/forms.py:210 | Of three rows, the one whose actor sorts after the other two comes first after the sort by actor. |
| Timeline.FastBeforeSlow | tests/test_charts.py:208-210 | `do_work_fast` sorts before `do_work_slow`. |
| Timeline.SlowActorFirst | tests/test_charts.py:206-210 | For the tests' two `do_work_fast` tasks and one `do_work_slow` task, the rows are the slow actor's first and then the two fast ones. |

## Left out

- Views, URL configuration, templates and the settings module are not part of this model. The configurable extra query for each chart (`get_load_chart_qs`, `get_timeline_chart_qs`) is the `extra` parameter of `Query.Filter`.
- The choice lists for actor and queue, and their cache, are left out: they only offer choices to the form.
- The clock (`_now_dt`, `_four_hours_ago`) supplies the fields' initial values only. The model takes the bounds as given.
- `chart_title`, the JSON encoding of the results and the `strftime` formatting are left out. Tick keys and dates are timestamps rather than formatted strings.
  - Ticks are at least one second apart and start on a whole minute, so their second-resolution strings are distinct, like the timestamps.
- The timeline's `start` and `end` are formatted with microseconds and a four-digit year. The model compares the timestamps, which gives the same order for such strings.
- Django's form machinery is left out: parsing, field errors for missing or malformed dates, and `is_valid`. `LoadChart.GetChartData` requires start < end and an interval of at least 1, which a valid form guarantees.
  - If a date field fails while an interval is given, `clean` subtracts `None` and raises. The model always has both dates.
- `order_by('updated_at')` is not modelled: the query keeps the table's order. This only affects timeline rows that tie on both actor and end time.
- Timeline.TaskDurationMs: the source multiplies float seconds by 1000 and truncates, and that can lose a millisecond (1.001 s gives 1000). The model takes the exact truncated quotient.
- Float rounding in `math.ceil` and `int()` of the load chart's quotients is not modelled. These quotients are exact integer divisions here.
- `list.sort` sorts in place. The model sorts a sequence and returns a new one, because the list is local to the method and is not shared.
- Time zones are not modelled. All timestamps are taken to be in the same zone.
