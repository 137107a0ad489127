/**
 * The timeline form's data: one row per task the query keeps, ordered by
 * actor descending and, within an actor, by end descending, as two stable
 * sorts of the rows give it.
 */
module Timeline {
  import opened Tasks
  import opened Time
  import opened Strings
  import opened Query

  /** One bar of the timeline. `start` and `end` keep the task's own microseconds. */
  datatype TimelineRow = TimelineRow(actor: string, status: string, duration: int, start: int, end: int)

  /** The echo of the form's choices: exactly the five keys the chart title shows. */
  datatype FilterData = FilterData(startDate: int, endDate: int, actor: string, queue: string, status: string)

  datatype TimelineChartData =
    | EmptyQs
    | Chart(filterData: FilterData, chartData: seq<TimelineRow>)

  /**
   * `_task_duration_ms`: the task's length in whole milliseconds, the
   * fraction dropped toward zero.
   */
  function TaskDurationMs(start: int, end: int): (ms: int)
    ensures end >= start ==> 0 <= ms * MicrosPerMilli <= end - start < (ms + 1) * MicrosPerMilli
    ensures end < start ==> (ms - 1) * MicrosPerMilli < end - start <= ms * MicrosPerMilli <= 0
  {
    TruncDiv(end - start, MicrosPerMilli)
  }

  /** The row a task becomes. */
  function RowOf(t: Task): TimelineRow
  {
    TimelineRow(t.actor, t.status, TaskDurationMs(t.createdAt, t.updatedAt), t.createdAt, t.updatedAt)
  }

  /** The rows of the tasks, in the order of the query. */
  function Rows(tasks: seq<Task>): (rows: seq<TimelineRow>)
    ensures |rows| == |tasks|
    ensures forall i :: 0 <= i < |tasks| ==> rows[i] == RowOf(tasks[i])
  {
    seq(|tasks|, i requires 0 <= i < |tasks| => RowOf(tasks[i]))
  }

  /** The two sort keys the timeline uses: `itemgetter('end')` and `itemgetter('actor')`. */
  datatype SortKey = ByEnd | ByActor

  /** `x`'s key is at least `y`'s. */
  predicate AtLeast(x: TimelineRow, y: TimelineRow, key: SortKey)
  {
    match key
    case ByEnd => x.end >= y.end
    case ByActor => LexAtLeast(x.actor, y.actor)
  }

  /** `x` and `y` have equal keys. */
  predicate SameKey(x: TimelineRow, y: TimelineRow, key: SortKey)
  {
    match key
    case ByEnd => x.end == y.end
    case ByActor => x.actor == y.actor
  }

  /** Each key orders rows totally, and ties exactly the rows with equal keys. */
  lemma KeyFacts(x: TimelineRow, y: TimelineRow, z: TimelineRow, key: SortKey)
    ensures AtLeast(x, y, key) || AtLeast(y, x, key)
    ensures AtLeast(x, y, key) && AtLeast(y, z, key) ==> AtLeast(x, z, key)
    ensures SameKey(x, y, key) <==> AtLeast(x, y, key) && AtLeast(y, x, key)
  {
    LexAtLeastFacts(x.actor, y.actor, z.actor);
    LexAtLeastFacts(y.actor, x.actor, z.actor);
  }

  /** The rows are in descending order of the key. */
  predicate SortedDesc(rows: seq<TimelineRow>, key: SortKey)
  {
    forall i, j :: 0 <= i < j < |rows| ==> AtLeast(rows[i], rows[j], key)
  }

  /** Rows that tie on `key` are in descending order of `key2`. */
  predicate ThenBy(rows: seq<TimelineRow>, key: SortKey, key2: SortKey)
  {
    forall i, j :: 0 <= i < j < |rows| && SameKey(rows[i], rows[j], key) ==> AtLeast(rows[i], rows[j], key2)
  }

  /** The rows whose key equals `v`'s, in their order. */
  function Class(rows: seq<TimelineRow>, v: TimelineRow, key: SortKey): seq<TimelineRow>
  {
    if rows == [] then []
    else
      var last := rows[|rows| - 1];
      Class(rows[..|rows| - 1], v, key) + (if SameKey(last, v, key) then [last] else [])
  }

  lemma {:induction false} ClassAppend(a: seq<TimelineRow>, b: seq<TimelineRow>, v: TimelineRow, key: SortKey)
    ensures Class(a + b, v, key) == Class(a, v, key) + Class(b, v, key)
  {
    if b == [] {
      assert a + b == a;
    } else {
      var init := b[..|b| - 1];
      assert (a + b)[..|a + b| - 1] == a + init;
      ClassAppend(a, init, v, key);
    }
  }

  lemma {:induction false} ClassNone(rows: seq<TimelineRow>, v: TimelineRow, key: SortKey)
    requires forall r :: r in rows ==> !SameKey(r, v, key)
    ensures Class(rows, v, key) == []
  {
    if rows != [] {
      ClassNone(rows[..|rows| - 1], v, key);
    }
  }

  /** Narrowing to one key's ties and then to another's can be done in either order. */
  lemma {:induction false} ClassCommute(rows: seq<TimelineRow>, v: TimelineRow, k1: SortKey, k2: SortKey)
    ensures Class(Class(rows, v, k1), v, k2) == Class(Class(rows, v, k2), v, k1)
  {
    if rows != [] {
      var init, last := rows[..|rows| - 1], rows[|rows| - 1];
      ClassCommute(init, v, k1, k2);
      ClassAppend(Class(init, v, k1), if SameKey(last, v, k1) then [last] else [], v, k2);
      ClassAppend(Class(init, v, k2), if SameKey(last, v, k2) then [last] else [], v, k1);
      assert Class([last], v, k1) == if SameKey(last, v, k1) then [last] else [];
      assert Class([last], v, k2) == if SameKey(last, v, k2) then [last] else [];
    }
  }

  /**
   * One step of a stable descending sort: put `x` after every row whose key
   * is at least its own, so that it follows the rows it ties with.
   */
  method InsertDesc(sorted: seq<TimelineRow>, x: TimelineRow, key: SortKey) returns (r: seq<TimelineRow>)
    requires SortedDesc(sorted, key)
    ensures multiset(r) == multiset(sorted) + multiset{x}
    ensures SortedDesc(r, key)
    ensures forall v :: Class(r, v, key) == Class(sorted, v, key) + (if SameKey(x, v, key) then [x] else [])
    ensures forall key2 :: ThenBy(sorted, key, key2) && (forall y :: y in sorted ==> AtLeast(y, x, key2)) ==>
      ThenBy(r, key, key2)
  {
    var p := 0;
    while p < |sorted| && AtLeast(sorted[p], x, key)
      invariant 0 <= p <= |sorted|
      invariant forall q :: 0 <= q < p ==> AtLeast(sorted[q], x, key)
    {
      p := p + 1;
    }
    var left, right := sorted[..p], sorted[p..];
    assert sorted == left + right;
    forall q | 0 <= q < |right| ensures !AtLeast(right[q], x, key) && AtLeast(x, right[q], key) {
      KeyFacts(sorted[p], sorted[p + q], x, key);
      KeyFacts(sorted[p + q], x, sorted[p], key);
    }
    r := left + [x] + right;
    InsertSorted(left, x, right, key);
    forall v ensures Class(r, v, key) == Class(sorted, v, key) + (if SameKey(x, v, key) then [x] else []) {
      if SameKey(x, v, key) {
        ClassBelow(x, right, v, key);
      }
      InsertClass(left, x, right, v, key);
    }
    forall key2 | ThenBy(sorted, key, key2) && (forall y :: y in sorted ==> AtLeast(y, x, key2))
      ensures ThenBy(r, key, key2)
    {
      InsertThenBy(left, x, right, key, key2);
    }
  }

  lemma InsertSorted(left: seq<TimelineRow>, x: TimelineRow, right: seq<TimelineRow>, key: SortKey)
    requires SortedDesc(left + right, key)
    requires forall q :: 0 <= q < |left| ==> AtLeast(left[q], x, key)
    requires forall q :: 0 <= q < |right| ==> AtLeast(x, right[q], key)
    ensures SortedDesc(left + [x] + right, key)
  {
    var r, s := left + [x] + right, left + right;
    var p := |left|;
    forall i, j | 0 <= i < j < |r| ensures AtLeast(r[i], r[j], key) {
      if i < p && j > p {
        assert r[i] == s[i] && r[j] == s[j - 1];
      } else if i > p {
        assert r[i] == s[i - 1] && r[j] == s[j - 1];
      } else if j < p {
        assert r[i] == s[i] && r[j] == s[j];
      }
    }
  }

  lemma ClassSingleton(x: TimelineRow, v: TimelineRow, key: SortKey)
    ensures Class([x], v, key) == if SameKey(x, v, key) then [x] else []
  {
    assert [x][..0] == [];
  }

  /** Rows strictly below `x` on the key hold nothing that ties with `x`. */
  lemma ClassBelow(x: TimelineRow, right: seq<TimelineRow>, v: TimelineRow, key: SortKey)
    requires forall q :: 0 <= q < |right| ==> !AtLeast(right[q], x, key)
    requires SameKey(x, v, key)
    ensures Class(right, v, key) == []
  {
    forall z | z in right ensures !SameKey(z, v, key) {
      var q :| 0 <= q < |right| && right[q] == z;
      KeyFacts(z, x, v, key);
      KeyFacts(z, v, x, key);
      KeyFacts(x, v, z, key);
    }
    ClassNone(right, v, key);
  }

  lemma InsertClass(left: seq<TimelineRow>, x: TimelineRow, right: seq<TimelineRow>, v: TimelineRow, key: SortKey)
    requires SameKey(x, v, key) ==> Class(right, v, key) == []
    ensures Class(left + [x] + right, v, key) == Class(left + right, v, key) + (if SameKey(x, v, key) then [x] else [])
  {
    ClassAppend(left + [x], right, v, key);
    ClassAppend(left, [x], v, key);
    ClassAppend(left, right, v, key);
    ClassSingleton(x, v, key);
  }

  lemma InsertThenBy(left: seq<TimelineRow>, x: TimelineRow, right: seq<TimelineRow>, key: SortKey, key2: SortKey)
    requires ThenBy(left + right, key, key2)
    requires forall y :: y in left + right ==> AtLeast(y, x, key2)
    requires forall q :: 0 <= q < |right| ==> !AtLeast(right[q], x, key)
    ensures ThenBy(left + [x] + right, key, key2)
  {
    var r, s := left + [x] + right, left + right;
    var p := |left|;
    forall i, j | 0 <= i < j < |r| && SameKey(r[i], r[j], key) ensures AtLeast(r[i], r[j], key2) {
      if i < p && j == p {
        assert r[i] == s[i];
      } else if i == p {
        assert r[j] == right[j - p - 1];
        KeyFacts(r[i], r[j], r[i], key);
      } else if i < p && j > p {
        assert r[i] == s[i] && r[j] == s[j - 1];
      } else if i > p {
        assert r[i] == s[i - 1] && r[j] == s[j - 1];
      } else {
        assert r[i] == s[i] && r[j] == s[j];
      }
    }
  }

  /**
   * `list.sort(key=..., reverse=True)`: the rows in descending order of the
   * key, rows with equal keys kept in their order. Sorting rows that are
   * already in descending order of another key leaves them in that order
   * wherever the new key ties.
   */
  method StableSortDesc(rows: seq<TimelineRow>, key: SortKey) returns (sorted: seq<TimelineRow>)
    ensures multiset(sorted) == multiset(rows)
    ensures SortedDesc(sorted, key)
    ensures forall v :: Class(sorted, v, key) == Class(rows, v, key)
    ensures forall key2 :: SortedDesc(rows, key2) ==> ThenBy(sorted, key, key2)
  {
    sorted := [];
    var i := 0;
    while i < |rows|
      invariant 0 <= i <= |rows|
      invariant multiset(sorted) == multiset(rows[..i])
      invariant SortedDesc(sorted, key)
      invariant forall v :: Class(sorted, v, key) == Class(rows[..i], v, key)
      invariant forall key2 :: SortedDesc(rows, key2) ==> ThenBy(sorted, key, key2)
    {
      var x := rows[i];
      assert rows[..i + 1] == rows[..i] + [x];
      assert rows[..i + 1][..i] == rows[..i];
      forall key2 | SortedDesc(rows, key2) ensures forall y :: y in sorted ==> AtLeast(y, x, key2) {
        EarlierAtLeast(rows, i, sorted, key2);
      }
      sorted := InsertDesc(sorted, x, key);
      i := i + 1;
    }
    assert rows[..i] == rows;
  }

  /** Rows taken from before position `i` of rows sorted on `key2` are at least row `i` on it. */
  lemma EarlierAtLeast(rows: seq<TimelineRow>, i: int, sorted: seq<TimelineRow>, key2: SortKey)
    requires 0 <= i < |rows| && SortedDesc(rows, key2)
    requires multiset(sorted) == multiset(rows[..i])
    ensures forall y :: y in sorted ==> AtLeast(y, rows[i], key2)
  {
    forall y | y in sorted ensures AtLeast(y, rows[i], key2) {
      assert y in multiset(rows[..i]);
      var m :| 0 <= m < i && rows[m] == y;
    }
  }

  /** The loop that turns each task of the query into its row, in order. */
  method CollectRows(tasks: seq<Task>) returns (rows: seq<TimelineRow>)
    ensures |rows| == |tasks|
    ensures forall i :: 0 <= i < |tasks| ==> rows[i] == RowOf(tasks[i])
  {
    rows := [];
    var i := 0;
    while i < |tasks|
      invariant 0 <= i <= |tasks|
      invariant |rows| == i
      invariant forall j :: 0 <= j < i ==> rows[j] == RowOf(tasks[j])
    {
      rows := rows + [RowOf(tasks[i])];
      i := i + 1;
    }
  }

  /**
   * The two sorts of the timeline: by end descending, then by actor
   * descending. Both are stable, so the rows end up by actor, then by end,
   * and rows that tie on both keep their order.
   */
  method SortRows(rows: seq<TimelineRow>) returns (sorted: seq<TimelineRow>)
    ensures multiset(sorted) == multiset(rows)
    ensures SortedDesc(sorted, ByActor)
    ensures ThenBy(sorted, ByActor, ByEnd)
    ensures forall v :: Class(Class(sorted, v, ByActor), v, ByEnd) == Class(Class(rows, v, ByActor), v, ByEnd)
  {
    var byEnd := StableSortDesc(rows, ByEnd);
    sorted := StableSortDesc(byEnd, ByActor);
    forall v ensures Class(Class(sorted, v, ByActor), v, ByEnd) == Class(Class(rows, v, ByActor), v, ByEnd) {
      calc {
        Class(Class(sorted, v, ByActor), v, ByEnd);
        Class(Class(byEnd, v, ByActor), v, ByEnd);
        { ClassCommute(byEnd, v, ByActor, ByEnd); }
        Class(Class(byEnd, v, ByEnd), v, ByActor);
        Class(Class(rows, v, ByEnd), v, ByActor);
        { ClassCommute(rows, v, ByActor, ByEnd); }
        Class(Class(rows, v, ByActor), v, ByEnd);
      }
    }
  }

  /**
   * The timeline over the tasks the query keeps, on the bounds as given. No
   * task record: the empty marker. Otherwise the echo of the choices, with
   * the bounds to the second, and one row per task, every task of the query
   * included, ordered by actor descending, then by end descending, rows that
   * tie on both keeping the order of the query.
   */
  method GetChartData(
    store: seq<Task>, startDate: int, endDate: int,
    actor: string, queue: string, status: string, extra: Option<Task -> bool>)
    returns (chart: TimelineChartData)
    ensures var tasks := Filter(store, Criteria(startDate, endDate, actor, queue, status), extra);
      && (chart.EmptyQs? <==> tasks == [])
      && (chart.Chart? ==>
        && chart.filterData == FilterData(TruncToSecond(startDate), TruncToSecond(endDate), actor, queue, status)
        && multiset(chart.chartData) == multiset(Rows(tasks))
        && SortedDesc(chart.chartData, ByActor)
        && ThenBy(chart.chartData, ByActor, ByEnd)
        && (forall v :: Class(Class(chart.chartData, v, ByActor), v, ByEnd)
                     == Class(Class(Rows(tasks), v, ByActor), v, ByEnd)))
  {
    var tasks := Filter(store, Criteria(startDate, endDate, actor, queue, status), extra);
    if |tasks| == 0 {
      return EmptyQs;
    }
    var filterData := FilterData(TruncToSecond(startDate), TruncToSecond(endDate), actor, queue, status);
    var chartData := CollectRows(tasks);
    assert chartData == Rows(tasks);
    var sorted := SortRows(chartData);
    chart := Chart(filterData, sorted);
  }

  /** `do_work_fast` sorts before `do_work_slow`: after the shared `do_work_`, `f` comes before `s`. */
  lemma FastBeforeSlow()
    ensures LexLess("do_work_fast", "do_work_slow")
  {
    LexLessPrefix("do_work_", "fast", "slow");
    assert "do_work_" + "fast" == "do_work_fast" && "do_work_" + "slow" == "do_work_slow";
  }

  /** A row that is not below `top` on the actor, among `top` and two rows that are, is `top`. */
  lemma OnlyTopNotBelow(c: TimelineRow, top: TimelineRow, low1: TimelineRow, low2: TimelineRow)
    requires c == top || c == low1 || c == low2
    requires LexLess(low1.actor, top.actor) && LexLess(low2.actor, top.actor)
    requires c == top || AtLeast(c, top, ByActor)
    ensures c == top
  {
  }

  /** Three rows that are three others in some order: each is among the others. */
  lemma SameThree(c0: TimelineRow, c1: TimelineRow, c2: TimelineRow, top: TimelineRow, low1: TimelineRow, low2: TimelineRow)
    requires multiset{c0, c1, c2} == multiset{top, low1, low2}
    ensures top == c0 || top == c1 || top == c2
    ensures c0 == top || c0 == low1 || c0 == low2
  {
    assert top in multiset{c0, c1, c2};
    assert c0 in multiset{top, low1, low2};
  }

  /** Dropping a shared row from two equal multisets of three leaves equal pairs. */
  lemma DropShared(c: TimelineRow, c1: TimelineRow, c2: TimelineRow, low1: TimelineRow, low2: TimelineRow)
    requires multiset{c, c1, c2} == multiset{c, low1, low2}
    ensures multiset{c1, c2} == multiset{low1, low2}
  {
    assert multiset{c1, c2} == multiset{c, c1, c2} - multiset{c};
    assert multiset{low1, low2} == multiset{c, low1, low2} - multiset{c};
  }

  /**
   * Three rows, one of an actor that sorts after the other two's: after
   * the sort by actor descending it comes first.
   */
  lemma GreatestActorFirst(chartData: seq<TimelineRow>, top: TimelineRow, low1: TimelineRow, low2: TimelineRow)
    requires LexLess(low1.actor, top.actor) && LexLess(low2.actor, top.actor)
    requires multiset(chartData) == multiset{top, low1, low2}
    requires SortedDesc(chartData, ByActor)
    ensures |chartData| == 3
    ensures chartData[0] == top
    ensures multiset{chartData[1], chartData[2]} == multiset{low1, low2}
  {
    assert |chartData| == |multiset(chartData)| == 3;
    var c0, c1, c2 := chartData[0], chartData[1], chartData[2];
    assert chartData == [c0, c1, c2];
    SameThree(c0, c1, c2, top, low1, low2);
    if top == c1 {
      assert AtLeast(chartData[0], chartData[1], ByActor);
    } else if top == c2 {
      assert AtLeast(chartData[0], chartData[2], ByActor);
    }
    OnlyTopNotBelow(c0, top, low1, low2);
    DropShared(c0, c1, c2, low1, low2);
  }

  /**
   * The timeline form's own case: two tasks of `do_work_fast` and one of
   * `do_work_slow`. Whatever their ends, the rows come out with the slow
   * actor first and the two fast ones after it.
   */
  lemma SlowActorFirst(chartData: seq<TimelineRow>, slow: TimelineRow, fast1: TimelineRow, fast2: TimelineRow)
    requires slow.actor == "do_work_slow" && fast1.actor == "do_work_fast" && fast2.actor == "do_work_fast"
    requires multiset(chartData) == multiset{slow, fast1, fast2}
    requires SortedDesc(chartData, ByActor)
    ensures |chartData| == 3
    ensures chartData[0] == slow
    ensures chartData[1].actor == "do_work_fast" && chartData[2].actor == "do_work_fast"
  {
    FastBeforeSlow();
    GreatestActorFirst(chartData, slow, fast1, fast2);
    assert chartData[1] in multiset{fast1, fast2} && chartData[2] in multiset{fast1, fast2};
  }
}
