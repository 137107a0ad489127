/**
 * The load chart form's data: for every tick of the window, how many tasks
 * of each actor were working then. The method follows the source step by
 * step and is proved against the functions of module LoadSpec.
 */
module LoadChart {
  import opened Tasks
  import opened Time
  import opened Strings
  import opened Query
  import opened LoadSpec

  /**
   * What the chart receives: the empty marker, or the categories (actor
   * names), a row of cells per category, the tick axis and a height.
   */
  datatype LoadChartData =
    | EmptyQs
    | Chart(categories: seq<string>, workingActorsCount: seq<seq<Option<nat>>>, dates: seq<int>, chartHeight: int)

  /** The timestamps listed in `ticks`: the keys the dictionary of the ticks must have. */
  function KeySet(ticks: seq<int>): set<int>
  {
    set t | t in ticks
  }

  lemma KeySetSnoc(ticks: seq<int>, t: int)
    ensures KeySet(ticks + [t]) == KeySet(ticks) + {t}
  {
    assert forall u :: u in ticks + [t] <==> u in ticks || u == t;
  }

  /** `sorted(xs, reverse=True)` on actor names. */
  method SortDescending(xs: seq<string>) returns (ys: seq<string>)
    ensures multiset(ys) == multiset(xs)
    ensures Descending(ys)
  {
    ys := [];
    var i := 0;
    while i < |xs|
      invariant 0 <= i <= |xs|
      invariant multiset(ys) == multiset(xs[..i])
      invariant Descending(ys)
    {
      var x := xs[i];
      var p := 0;
      while p < |ys| && LexAtLeast(ys[p], x)
        invariant 0 <= p <= |ys|
        invariant forall q :: 0 <= q < p ==> LexAtLeast(ys[q], x)
      {
        p := p + 1;
      }
      forall q | p <= q < |ys| ensures LexAtLeast(x, ys[q]) {
        LexAtLeastFacts(ys[p], ys[q], x);
        LexAtLeastFacts(x, ys[q], ys[p]);
      }
      forall a, b | 0 <= a < b < |ys[..p] + [x] + ys[p..]|
        ensures LexAtLeast((ys[..p] + [x] + ys[p..])[a], (ys[..p] + [x] + ys[p..])[b])
      {
        if a < p && b > p {
          assert (ys[..p] + [x] + ys[p..])[b] == ys[b - 1];
        }
      }
      assert xs[..i + 1] == xs[..i] + [x];
      assert ys == ys[..p] + ys[p..];
      ys := ys[..p] + [x] + ys[p..];
      i := i + 1;
    }
    assert xs[..i] == xs;
  }

  /**
   * The inner loop of the marking: from `startTime`, the tick of index
   * `first`, walk `steps` ticks and append `actor` at each one that is not
   * after the window end.
   */
  method MarkTicks(
    actorsAt: map<int, seq<string>>, ticks: seq<int>, g: Grid,
    startTime: int, steps: int, actor: string, ghost first: int)
    returns (after: map<int, seq<string>>)
    requires g.Valid() && ticks == Ticks(g)
    requires first >= 0 && startTime == g.start + first * g.tick
    requires forall k :: 0 <= k < |ticks| ==> ticks[k] in actorsAt
    ensures after.Keys == actorsAt.Keys
    ensures forall k :: 0 <= k < |ticks| ==> ticks[k] in after
    ensures forall k :: 0 <= k < |ticks| ==>
      after[ticks[k]] == actorsAt[ticks[k]] + (if first <= k < first + steps && ticks[k] <= g.end then [actor] else [])
  {
    after := actorsAt;
    var sec := 0;
    while sec < steps
      invariant 0 <= sec && (sec <= steps || sec == 0)
      invariant after.Keys == actorsAt.Keys
      invariant forall k :: 0 <= k < |ticks| ==> ticks[k] in after
      invariant forall k :: 0 <= k < |ticks| ==>
        after[ticks[k]] == actorsAt[ticks[k]] + (if first <= k < first + sec && ticks[k] <= g.end then [actor] else [])
    {
      var calculating := startTime + g.tick * sec;
      assert calculating == g.start + (first + sec) * g.tick;
      if calculating > g.end {
        // the task runs on past the last tick of the chart
      } else {
        var j := first + sec;
        MultipleBelowCeil(g.Span(), g.tick, j);
        assert ticks[j] == calculating;
        forall k | 0 <= k < |ticks| && k != j ensures ticks[k] != calculating {
          MulCancel(g.tick, k, j);
        }
        after := after[calculating := after[calculating] + [actor]];
      }
      sec := sec + 1;
    }
  }

  /**
   * The dictionary of the ticks: one empty list of actors per tick of the
   * axis, `ticks` giving its keys in the order they were inserted.
   */
  method BuildAxis(g: Grid) returns (actorsAt: map<int, seq<string>>, ticks: seq<int>)
    requires g.Valid()
    ensures ticks == Ticks(g)
    ensures actorsAt.Keys == KeySet(ticks)
    ensures forall k :: 0 <= k < |ticks| ==> ticks[k] in actorsAt && actorsAt[ticks[k]] == []
  {
    actorsAt := map[];
    ticks := [];
    var offset := 0;
    while offset < g.Span() + g.tick
      invariant |ticks| <= TickCount(g)
      invariant offset == |ticks| * g.tick
      invariant ticks == Ticks(g)[..|ticks|]
      invariant actorsAt.Keys == KeySet(ticks)
      invariant forall t :: t in actorsAt ==> actorsAt[t] == []
    {
      AxisStep(g, |ticks|, offset);
      actorsAt := actorsAt[g.start + offset := []];
      KeySetSnoc(ticks, g.start + offset);
      ticks := ticks + [g.start + offset];
      offset := offset + g.tick;
    }
    AxisEnd(g, |ticks|, offset);
    assert forall k :: 0 <= k < |ticks| ==> ticks[k] in KeySet(ticks);
  }

  /** One more offset below `span + tick` is the next tick of the axis. */
  lemma AxisStep(g: Grid, n: int, offset: int)
    requires g.Valid() && 0 <= n && offset == n * g.tick && offset < g.Span() + g.tick
    ensures n < TickCount(g)
    ensures Ticks(g)[..n + 1] == Ticks(g)[..n] + [g.start + offset]
    ensures offset + g.tick == (n + 1) * g.tick
  {
    TickExists(g, n);
  }

  /** The first offset not below `span + tick` comes after the last tick. */
  lemma AxisEnd(g: Grid, n: int, offset: int)
    requires g.Valid() && 0 <= n <= TickCount(g) && offset == n * g.tick && offset >= g.Span() + g.tick
    ensures n == TickCount(g)
  {
    if n < TickCount(g) {
      TickExists(g, n);
    }
  }

  /**
   * The marking of one task that is not skipped: its actor is appended at
   * every tick it marks, from the first tick at or after its clamped start.
   */
  method MarkTask(actorsAt: map<int, seq<string>>, g: Grid, ticks: seq<int>, task: Task, ghost done: seq<Task>)
    returns (after: map<int, seq<string>>)
    requires g.Valid() && ticks == Ticks(g) && !TooLong(task)
    requires forall k :: 0 <= k < |ticks| ==> ticks[k] in actorsAt
    requires forall k, a :: 0 <= k < |ticks| ==> multiset(actorsAt[ticks[k]])[a] == Count(done, a, g, k)
    ensures after.Keys == actorsAt.Keys
    ensures forall k :: 0 <= k < |ticks| ==> ticks[k] in after
    ensures forall k, a :: 0 <= k < |ticks| ==> multiset(after[ticks[k]])[a] == Count(done + [task], a, g, k)
  {
    assert (done + [task])[..|done|] == done;
    var updatedAt := if task.updatedAt < g.end then task.updatedAt else g.end;
    var createdAt := if task.createdAt > g.start then task.createdAt else g.start;
    var actorWork := updatedAt - createdAt;
    var nextTick := CeilDiv(createdAt - g.start, g.tick) * g.tick;
    var startTime := g.start + nextTick;
    after := MarkTicks(actorsAt, ticks, g, startTime, TruncDiv(actorWork, g.tick) + 1, task.actor, FirstTick(task, g));
    forall k, a | 0 <= k < |ticks|
      ensures multiset(after[ticks[k]])[a] == Count(done + [task], a, g, k)
    {
      assert multiset(after[ticks[k]])[a]
        == multiset(actorsAt[ticks[k]])[a] + (if a == task.actor && Marks(task, g, k) then 1 else 0);
    }
  }

  /**
   * The loop over the tasks: note each new actor of a task that is not
   * skipped, and mark the ticks of each task. Afterwards each tick's list
   * holds every actor as often as its tasks mark that tick.
   */
  method MarkTasks(tasks: seq<Task>, g: Grid, ticks: seq<int>, empty: map<int, seq<string>>)
    returns (actorsAt: map<int, seq<string>>, categories: seq<string>)
    requires g.Valid() && ticks == Ticks(g)
    requires forall k :: 0 <= k < |ticks| ==> ticks[k] in empty && empty[ticks[k]] == []
    ensures actorsAt.Keys == empty.Keys
    ensures forall k :: 0 <= k < |ticks| ==> ticks[k] in actorsAt
    ensures forall k, a :: 0 <= k < |ticks| ==> multiset(actorsAt[ticks[k]])[a] == Count(tasks, a, g, k)
    ensures Distinct(categories) && Elems(categories) == ActorSet(tasks)
  {
    actorsAt := empty;
    categories := [];
    var i := 0;
    while i < |tasks|
      invariant 0 <= i <= |tasks|
      invariant actorsAt.Keys == empty.Keys
      invariant forall k :: 0 <= k < |ticks| ==> ticks[k] in actorsAt
      invariant forall k, a :: 0 <= k < |ticks| ==> multiset(actorsAt[ticks[k]])[a] == Count(tasks[..i], a, g, k)
      invariant Distinct(categories) && Elems(categories) == ActorSet(tasks[..i])
    {
      var task := tasks[i];
      assert tasks[..i + 1] == tasks[..i] + [task];
      ActorSetSnoc(tasks[..i], task);
      if task.updatedAt - task.createdAt >= MicrosPerDay {
        // a task that "worked" a day or more is most likely bad data: skip it
        assert (tasks[..i] + [task])[..i] == tasks[..i];
      } else {
        if task.actor !in categories {
          categories := categories + [task.actor];
        }
        actorsAt := MarkTask(actorsAt, g, ticks, task, tasks[..i]);
      }
      i := i + 1;
    }
    assert tasks[..i] == tasks;
  }

  /**
   * The table: for every tick, in order, one cell per category, the number
   * of times that actor is listed at the tick or nothing when it is not.
   */
  method CountTable(tasks: seq<Task>, g: Grid, ticks: seq<int>, actorsAt: map<int, seq<string>>, categories: seq<string>)
    returns (workingActorsCount: seq<seq<Option<nat>>>, dates: seq<int>)
    requires g.Valid() && ticks == Ticks(g)
    requires actorsAt.Keys == KeySet(ticks)
    requires forall k, a :: 0 <= k < |ticks| ==> multiset(actorsAt[ticks[k]])[a] == Count(tasks, a, g, k)
    ensures dates == ticks
    ensures forall d :: d in dates <==> d in actorsAt
    ensures |workingActorsCount| == |categories|
    ensures forall c :: 0 <= c < |categories| ==> workingActorsCount[c] == Row(tasks, categories[c], g, |ticks|)
  {
    workingActorsCount := seq(|categories|, _ => []);
    dates := [];
    var k := 0;
    while k < |ticks|
      invariant 0 <= k <= |ticks|
      invariant dates == ticks[..k]
      invariant |workingActorsCount| == |categories|
      invariant forall c :: 0 <= c < |categories| ==> workingActorsCount[c] == Row(tasks, categories[c], g, k)
    {
      var actors := actorsAt[ticks[k]];
      dates := dates + [ticks[k]];
      var c := 0;
      while c < |categories|
        invariant 0 <= c <= |categories| && |workingActorsCount| == |categories|
        invariant forall c' :: 0 <= c' < c ==> workingActorsCount[c'] == Row(tasks, categories[c'], g, k + 1)
        invariant forall c' :: c <= c' < |categories| ==> workingActorsCount[c'] == Row(tasks, categories[c'], g, k)
      {
        var cell: Option<nat>;
        if |actors| > 0 && categories[c] in actors {
          cell := Some(multiset(actors)[categories[c]]);
        } else {
          cell := None;
        }
        assert multiset(actors)[categories[c]] == Count(tasks, categories[c], g, k);
        assert Row(tasks, categories[c], g, k + 1) == Row(tasks, categories[c], g, k) + [cell];
        workingActorsCount := workingActorsCount[c := workingActorsCount[c] + [cell]];
        c := c + 1;
      }
      k := k + 1;
    }
  }

  /**
   * The load chart over the tasks the query keeps, bounds truncated to the
   * minute. No task record: the empty marker. Otherwise the dates are the
   * tick axis, the categories are the actors of the tasks not skipped,
   * distinct and in reverse order, and each row holds, per tick, how many
   * of that actor's tasks mark it (nothing for none), so that it adds up to
   * all the marks of that actor's tasks.
   */
  method GetChartData(
    store: seq<Task>, startDate: int, endDate: int, tickSec: int,
    actor: string, queue: string, status: string, extra: Option<Task -> bool>)
    returns (chart: LoadChartData)
    requires startDate < endDate && tickSec >= 1
    ensures var g := Grid(TruncToMinute(startDate), TruncToMinute(endDate), tickSec * MicrosPerSecond);
      var tasks := Filter(store, Criteria(g.start, g.end, actor, queue, status), extra);
      && g.Valid()
      && (chart.EmptyQs? <==> tasks == [])
      && (chart.Chart? ==>
        && chart.dates == Ticks(g)
        && StrictlyDescending(chart.categories)
        && Elems(chart.categories) == ActorSet(tasks)
        && chart.chartHeight == BaseHeight + RowHeight * |chart.categories|
        && |chart.workingActorsCount| == |chart.categories|
        && (forall c :: 0 <= c < |chart.categories| ==>
              chart.workingActorsCount[c] == Row(tasks, chart.categories[c], g, TickCount(g)))
        && (forall c :: 0 <= c < |chart.categories| ==>
              SumCells(chart.workingActorsCount[c]) == ActorMarks(tasks, chart.categories[c], g)))
  {
    var startTrunc := TruncToMinute(startDate);
    var endTrunc := TruncToMinute(endDate);
    TruncToMinuteMonotone(startDate, endDate);
    var g := Grid(startTrunc, endTrunc, tickSec * MicrosPerSecond);
    var tasks := Filter(store, Criteria(startTrunc, endTrunc, actor, queue, status), extra);
    if |tasks| == 0 {
      return EmptyQs;
    }
    var empty, ticks := BuildAxis(g);
    var actorsAt, categories := MarkTasks(tasks, g, ticks, empty);
    categories := SortDescendingDistinct(categories);
    var workingActorsCount, dates := CountTable(tasks, g, ticks, actorsAt, categories);
    forall c | 0 <= c < |categories|
      ensures SumCells(workingActorsCount[c]) == ActorMarks(tasks, categories[c], g)
    {
      RowConservation(tasks, categories[c], g);
    }
    chart := Chart(categories, workingActorsCount, dates, BaseHeight + |categories| * RowHeight);
  }

  /** The sort of the categories, which carry no repeats, gives them strictly descending. */
  method SortDescendingDistinct(xs: seq<string>) returns (ys: seq<string>)
    requires Distinct(xs)
    ensures StrictlyDescending(ys) && Elems(ys) == Elems(xs)
  {
    ys := SortDescending(xs);
    PermutationFacts(xs, ys);
    DistinctDescendingIsStrict(ys);
  }
}
