/**
 * What the load chart computes, stated as functions of the filtered tasks:
 * the tick axis, which ticks each task marks, and the count of marks per
 * actor and tick. The method in module LoadChart is proved against these.
 */
module LoadSpec {
  import opened Tasks
  import opened Time

  /** Chart height: a base plus one row height per category. */
  const BaseHeight: int := 200
  const RowHeight: int := 25

  /**
   * The bucketing grid: the window bounds (already truncated to the minute)
   * and the tick length, all in microseconds.
   */
  datatype Grid = Grid(start: int, end: int, tick: int)
  {
    predicate Valid()
    {
      start <= end && tick > 0
    }

    /** The window length. */
    function Span(): int
    {
      end - start
    }
  }

  /** Number of ticks: offsets `0, tick, 2 tick, ...` below `Span() + tick`. */
  function TickCount(g: Grid): (n: int)
    requires g.Valid()
    ensures n >= 1
  {
    CeilDiv(g.Span(), g.tick) + 1
  }

  /** The tick axis, oldest first. */
  function Ticks(g: Grid): (ts: seq<int>)
    requires g.Valid()
    ensures |ts| == TickCount(g)
  {
    seq(TickCount(g), k => g.start + k * g.tick)
  }

  /** Index of the last tick at or before the end of the window. */
  function LastTickIn(g: Grid): (k: int)
    requires g.Valid()
    ensures 0 <= k < TickCount(g)
  {
    MultipleBelowCeil(g.Span(), g.tick, g.Span() / g.tick);
    g.Span() / g.tick
  }

  /** `k * b <= a` exactly when `k <= a / b`. */
  lemma FloorBound(a: int, b: int, k: int)
    requires b > 0
    ensures k * b <= a <==> k <= a / b
  {
    assert a == b * (a / b) + a % b;
    if k <= a / b {
      MulMonotone(b, k, a / b);
    } else {
      MulMonotone(b, a / b + 1, k);
    }
  }

  /** Tick `k` exists exactly when its offset is below `span + tick`, as `range` has it. */
  lemma TickExists(g: Grid, k: int)
    requires g.Valid() && 0 <= k
    ensures k < TickCount(g) <==> k * g.tick < g.Span() + g.tick
  {
    var n := TickCount(g);
    if k < n {
      MulMonotone(g.tick, k, n - 1);
    } else {
      MulMonotone(g.tick, n, k);
    }
  }

  /** The last tick is at or after the window end, by less than one tick; it is on the end exactly when the tick divides the span. */
  lemma LastTick(g: Grid)
    requires g.Valid()
    ensures g.end <= Ticks(g)[TickCount(g) - 1] < g.end + g.tick
    ensures TickCount(g) == LastTickIn(g) + 1 <==> g.Span() % g.tick == 0
  {
    var q := g.Span() / g.tick;
    assert g.Span() == g.tick * q + g.Span() % g.tick;
    if g.Span() % g.tick == 0 {
      CeilDivUnique(g.Span(), g.tick, q);
    } else {
      CeilDivUnique(g.Span(), g.tick, q + 1);
    }
  }

  /**
   * The tick axis is what `range(0, span + tick, tick)` gives: exactly the
   * offsets below `span + tick`, so it starts at the window start, never is
   * empty, rises by one tick at a time, and its last tick may lie after the
   * end of the window, but by less than one tick.
   */
  lemma TicksShape(g: Grid)
    requires g.Valid()
    ensures Ticks(g)[0] == g.start
    ensures forall k :: 0 <= k ==> (k < |Ticks(g)| <==> k * g.tick < g.Span() + g.tick)
    ensures forall k :: 0 <= k < |Ticks(g)| - 1 ==> Ticks(g)[k] < Ticks(g)[k + 1]
    ensures g.end <= Ticks(g)[|Ticks(g)| - 1] < g.end + g.tick
    ensures |Ticks(g)| == LastTickIn(g) + 1 <==> g.Span() % g.tick == 0
  {
    var ts := Ticks(g);
    forall k | 0 <= k ensures k < |ts| <==> k * g.tick < g.Span() + g.tick {
      TickExists(g, k);
    }
    forall k | 0 <= k < |ts| - 1 ensures ts[k] < ts[k + 1] {
      assert (k + 1) * g.tick == k * g.tick + g.tick;
    }
    LastTick(g);
  }

  /** The load chart leaves out tasks that seem to have run for a day or more. */
  predicate TooLong(t: Task)
  {
    t.updatedAt - t.createdAt >= MicrosPerDay
  }

  /** The task's start, moved forward to the window start. */
  function ClampedStart(t: Task, g: Grid): int
  {
    if t.createdAt > g.start then t.createdAt else g.start
  }

  /** The task's end, moved back to the window end. */
  function ClampedEnd(t: Task, g: Grid): int
  {
    if t.updatedAt < g.end then t.updatedAt else g.end
  }

  /** Index of the first tick at or after the clamped start. */
  function FirstTick(t: Task, g: Grid): (k: int)
    requires g.Valid()
    ensures k >= 0
    ensures g.start + k * g.tick >= ClampedStart(t, g)
  {
    CeilDiv(ClampedStart(t, g) - g.start, g.tick)
  }

  /** How many consecutive ticks the task walks over: the truncated quotient of its clamped length by the tick, plus one. */
  function Steps(t: Task, g: Grid): int
    requires g.Valid()
  {
    TruncDiv(ClampedEnd(t, g) - ClampedStart(t, g), g.tick) + 1
  }

  /**
   * The task marks tick `k`: it is not skipped, `k` is one of the `Steps`
   * ticks from its first tick on, and that tick is not after the window end.
   */
  predicate Marks(t: Task, g: Grid, k: int)
    requires g.Valid()
  {
    && !TooLong(t)
    && FirstTick(t, g) <= k < FirstTick(t, g) + Steps(t, g)
    && g.start + k * g.tick <= g.end
  }

  /** Every tick a task marks is on the axis, so the marking never looks up a missing tick. */
  lemma MarkedTickIsOnAxis(t: Task, g: Grid, k: int)
    requires g.Valid() && Marks(t, g, k)
    ensures 0 <= k < |Ticks(g)|
  {
    MultipleBelowCeil(g.Span(), g.tick, k);
  }

  /** The ticks a task marks form the range from its first tick to `MarkEnd`. */
  function MarkEnd(t: Task, g: Grid): int
    requires g.Valid()
  {
    var walk := FirstTick(t, g) + Steps(t, g);
    if walk < LastTickIn(g) + 1 then walk else LastTickIn(g) + 1
  }

  lemma MarksAsRange(t: Task, g: Grid, k: int)
    requires g.Valid()
    ensures Marks(t, g, k) <==> !TooLong(t) && FirstTick(t, g) <= k < MarkEnd(t, g)
  {
    FloorBound(g.Span(), g.tick, k);
  }

  /** Number of ticks the task marks. */
  function MarkTotal(t: Task, g: Grid): nat
    requires g.Valid()
  {
    if TooLong(t) || MarkEnd(t, g) <= FirstTick(t, g) then 0 else MarkEnd(t, g) - FirstTick(t, g)
  }

  /** Number of tasks of `actor` that mark tick `k`: the list of actors at that tick, counted. */
  function Count(tasks: seq<Task>, actor: string, g: Grid, k: int): nat
    requires g.Valid()
  {
    if tasks == [] then 0
    else
      var last := tasks[|tasks| - 1];
      Count(tasks[..|tasks| - 1], actor, g, k) + (if last.actor == actor && Marks(last, g, k) then 1 else 0)
  }

  /** A cell of the table: the count, or nothing where the count is zero. */
  function Cell(tasks: seq<Task>, actor: string, g: Grid, k: int): (c: Option<nat>)
    requires g.Valid()
    ensures c.Some? ==> c.value > 0
  {
    var n := Count(tasks, actor, g, k);
    if n == 0 then None else Some(n)
  }

  /** A cell is empty exactly when no task of that actor marks the tick. */
  lemma {:induction false} CellEmptyIffUnmarked(tasks: seq<Task>, actor: string, g: Grid, k: int)
    requires g.Valid()
    ensures Cell(tasks, actor, g, k) == None <==>
      forall t :: t in tasks && t.actor == actor ==> !Marks(t, g, k)
  {
    if tasks != [] {
      var init := tasks[..|tasks| - 1];
      CellEmptyIffUnmarked(init, actor, g, k);
      assert tasks == init + [tasks[|tasks| - 1]];
    }
  }

  /** The categories: actors of the tasks the load chart does not skip. */
  function ActorSet(tasks: seq<Task>): set<string>
  {
    set t | t in tasks && !TooLong(t) :: t.actor
  }

  lemma ActorSetSnoc(tasks: seq<Task>, t: Task)
    ensures ActorSet(tasks + [t]) == ActorSet(tasks) + (if TooLong(t) then {} else {t.actor})
  {
    assert forall u :: u in tasks + [t] <==> u in tasks || u == t;
  }

  /** Marks an actor's tasks make in all: the sum a row of the table must add up to. */
  function ActorMarks(tasks: seq<Task>, actor: string, g: Grid): nat
    requires g.Valid()
  {
    if tasks == [] then 0
    else
      var last := tasks[|tasks| - 1];
      ActorMarks(tasks[..|tasks| - 1], actor, g) + (if last.actor == actor then MarkTotal(last, g) else 0)
  }

  /** The sum of the non-empty cells of a row. */
  function SumCells(row: seq<Option<nat>>): nat
  {
    if row == [] then 0
    else SumCells(row[..|row| - 1]) + (if row[|row| - 1].Some? then row[|row| - 1].value else 0)
  }

  /** The row of `actor` over the first `n` ticks. */
  function Row(tasks: seq<Task>, actor: string, g: Grid, n: nat): (row: seq<Option<nat>>)
    requires g.Valid()
    ensures |row| == n
  {
    seq(n, k => Cell(tasks, actor, g, k))
  }

  /** How many of the first `n` ticks one task of `actor` marks. */
  function OneTaskRowSum(t: Task, actor: string, g: Grid, n: nat): nat
    requires g.Valid()
  {
    if n == 0 then 0
    else OneTaskRowSum(t, actor, g, n - 1) + (if t.actor == actor && Marks(t, g, n - 1) then 1 else 0)
  }

  lemma {:induction false} OneTaskRowSumIsRange(t: Task, actor: string, g: Grid, n: nat)
    requires g.Valid()
    ensures OneTaskRowSum(t, actor, g, n) ==
      if t.actor != actor || TooLong(t) then 0
      else
        var hi := if n < MarkEnd(t, g) then n else MarkEnd(t, g);
        if hi <= FirstTick(t, g) then 0 else hi - FirstTick(t, g)
  {
    if n > 0 {
      OneTaskRowSumIsRange(t, actor, g, n - 1);
      MarksAsRange(t, g, n - 1);
    }
  }

  /** Adding one task to the table adds its own marks to every row prefix. */
  lemma {:induction false} RowSumSnoc(tasks: seq<Task>, t: Task, actor: string, g: Grid, n: nat)
    requires g.Valid()
    ensures SumCells(Row(tasks + [t], actor, g, n)) ==
      SumCells(Row(tasks, actor, g, n)) + OneTaskRowSum(t, actor, g, n)
  {
    assert (tasks + [t])[..|tasks|] == tasks;
    if n > 0 {
      RowSumSnoc(tasks, t, actor, g, n - 1);
      assert Row(tasks + [t], actor, g, n)[..n - 1] == Row(tasks + [t], actor, g, n - 1);
      assert Row(tasks, actor, g, n)[..n - 1] == Row(tasks, actor, g, n - 1);
    }
  }

  lemma {:induction false} EmptyRowSum(actor: string, g: Grid, n: nat)
    requires g.Valid()
    ensures SumCells(Row([], actor, g, n)) == 0
  {
    if n > 0 {
      EmptyRowSum(actor, g, n - 1);
      assert Row([], actor, g, n)[..n - 1] == Row([], actor, g, n - 1);
    }
  }

  /**
   * Counts are conserved: the non-empty cells of an actor's row add up to
   * the number of ticks its tasks mark.
   */
  lemma {:induction false} RowConservation(tasks: seq<Task>, actor: string, g: Grid)
    requires g.Valid()
    ensures SumCells(Row(tasks, actor, g, TickCount(g))) == ActorMarks(tasks, actor, g)
  {
    if tasks == [] {
      EmptyRowSum(actor, g, TickCount(g));
    } else {
      var init, last := tasks[..|tasks| - 1], tasks[|tasks| - 1];
      assert tasks == init + [last];
      RowConservation(init, actor, g);
      RowSumSnoc(init, last, actor, g, TickCount(g));
      OneTaskRowSumIsRange(last, actor, g, TickCount(g));
    }
  }

  /**
   * A task that covers the whole window, and ran less than a day, marks
   * every tick up to the window end and none after it.
   */
  lemma CoveringTaskMarksEveryTick(t: Task, g: Grid)
    requires g.Valid()
    requires t.createdAt <= g.start && t.updatedAt >= g.end && !TooLong(t)
    ensures forall k :: 0 <= k < TickCount(g) ==> (Marks(t, g, k) <==> Ticks(g)[k] <= g.end)
  {
    assert FirstTick(t, g) == 0;
    assert Steps(t, g) == g.Span() / g.tick + 1;
    forall k | 0 <= k < TickCount(g) ensures Marks(t, g, k) <==> Ticks(g)[k] <= g.end {
      FloorBound(g.Span(), g.tick, k);
    }
  }

  /** Tasks that ran for a day or more mark nothing and give no category. */
  lemma TooLongTasksIgnored(tasks: seq<Task>, g: Grid)
    requires g.Valid()
    requires forall t :: t in tasks ==> TooLong(t)
    ensures ActorSet(tasks) == {}
    ensures forall actor, k :: Cell(tasks, actor, g, k) == None
  {
    forall actor, k ensures Cell(tasks, actor, g, k) == None {
      CellEmptyIffUnmarked(tasks, actor, g, k);
    }
  }

  /**
   * The load form's own window, a minute either side of `now`, truncates to
   * exactly two minutes: 13 ticks at 10 s, 121 ticks at 1 s.
   */
  lemma TwoMinuteWindowTicks(now: int)
    ensures var g := Grid(TruncToMinute(now - MicrosPerMinute), TruncToMinute(now + MicrosPerMinute), 10 * MicrosPerSecond);
      g.Valid() && TickCount(g) == 13
    ensures var g := Grid(TruncToMinute(now - MicrosPerMinute), TruncToMinute(now + MicrosPerMinute), MicrosPerSecond);
      g.Valid() && TickCount(g) == 121
  {
    TruncToMinuteShift(now - MicrosPerMinute, 2);
    assert now - MicrosPerMinute + 2 * MicrosPerMinute == now + MicrosPerMinute;
  }

  /**
   * A one-minute window with 10 s ticks and one task running from 5 s to
   * 7 s: seven ticks, and the task marks only the tick at 10 s, after it
   * ended. Two such tasks of one actor count 2 there.
   */
  lemma ShortTaskMarksNextTick(h: int, actor: string)
    ensures var g := Grid(h, h + MicrosPerMinute, 10 * MicrosPerSecond);
      var t := Task(actor, "q", "done", h + 5 * MicrosPerSecond, h + 7 * MicrosPerSecond);
      && g.Valid()
      && TickCount(g) == 7
      && (forall k :: Marks(t, g, k) <==> k == 1)
      && Cell([t], actor, g, 1) == Some(1)
      && Cell([t, t], actor, g, 1) == Some(2)
      && (forall k :: k != 1 ==> Cell([t, t], actor, g, k) == None)
  {
    var g := Grid(h, h + MicrosPerMinute, 10 * MicrosPerSecond);
    var t := Task(actor, "q", "done", h + 5 * MicrosPerSecond, h + 7 * MicrosPerSecond);
    assert FirstTick(t, g) == 1;
    assert Steps(t, g) == 1;
    assert Marks(t, g, 1);
    assert [t, t][..1] == [t];
    assert [t][..0] == [];
    forall k | k != 1 ensures Cell([t, t], actor, g, k) == None {
      assert !Marks(t, g, k);
      assert Count([t], actor, g, k) == 0;
      assert Count([t, t], actor, g, k) == 0;
    }
  }
}
