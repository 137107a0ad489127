/**
 * The query both charts run against the task table: tasks overlapping the
 * window, narrowed by the optional actor, queue and status choices and by
 * the filter the host application may configure for that chart.
 */
module Query {
  import opened Tasks

  /** The window and the three choice fields; an empty string is "no choice". */
  datatype Criteria = Criteria(
    windowStart: int,
    windowEnd: int,
    actor: string,
    queue: string,
    status: string)

  /** The task overlaps the window: it ended at or after its start and began at or before its end. */
  predicate Overlaps(t: Task, c: Criteria)
  {
    t.updatedAt >= c.windowStart && t.createdAt <= c.windowEnd
  }

  /** A non-empty choice must match exactly. */
  predicate MatchesChoices(t: Task, c: Criteria)
  {
    && (c.actor == "" || t.actor == c.actor)
    && (c.queue == "" || t.queue == c.queue)
    && (c.status == "" || t.status == c.status)
  }

  /** The configured extra filter, when there is one, must accept the task. */
  predicate PassesExtra(t: Task, extra: Option<Task -> bool>)
  {
    extra.None? || extra.value(t)
  }

  /** The query keeps the task. */
  predicate Keep(t: Task, c: Criteria, extra: Option<Task -> bool>)
  {
    Overlaps(t, c) && MatchesChoices(t, c) && PassesExtra(t, extra)
  }

  /**
   * The task table narrowed by the query, in the order the table gives the
   * records: the window filter, then each chosen field, then the extra filter.
   */
  function Filter(tasks: seq<Task>, c: Criteria, extra: Option<Task -> bool>): (r: seq<Task>)
    ensures |r| <= |tasks|
    ensures forall t :: t in r ==> Keep(t, c, extra)
    ensures forall t :: multiset(r)[t] == if Keep(t, c, extra) then multiset(tasks)[t] else 0
  {
    if tasks == [] then []
    else
      var last := tasks[|tasks| - 1];
      assert tasks == tasks[..|tasks| - 1] + [last];
      Filter(tasks[..|tasks| - 1], c, extra)
        + (if Keep(last, c, extra) then [last] else [])
  }

  /** The recursive step of `Filter`, at the last record of a non-empty table. */
  lemma FilterLast(tasks: seq<Task>, c: Criteria, extra: Option<Task -> bool>)
    requires tasks != []
    ensures Filter(tasks, c, extra) == Filter(tasks[..|tasks| - 1], c, extra)
      + (if Keep(tasks[|tasks| - 1], c, extra) then [tasks[|tasks| - 1]] else [])
  {
  }

  lemma AppendAssoc(x: seq<Task>, y: seq<Task>, z: seq<Task>)
    ensures x + y + z == x + (y + z)
  {
  }

  /** Filtering a table made of two parts filters each part and keeps them in order. */
  lemma {:induction false} FilterAppend(a: seq<Task>, b: seq<Task>, c: Criteria, extra: Option<Task -> bool>)
    ensures Filter(a + b, c, extra) == Filter(a, c, extra) + Filter(b, c, extra)
  {
    if b == [] {
      assert a + b == a;
    } else {
      var init, last := b[..|b| - 1], b[|b| - 1];
      var kept := if Keep(last, c, extra) then [last] else [];
      var fa, fi := Filter(a, c, extra), Filter(init, c, extra);
      assert (a + b)[..|a + b| - 1] == a + init;
      assert (a + b)[|a + b| - 1] == last;
      FilterLast(a + b, c, extra);
      FilterLast(b, c, extra);
      FilterAppend(a, init, c, extra);
      assert Filter(a + b, c, extra) == fa + fi + kept;
      assert Filter(b, c, extra) == fi + kept;
      AppendAssoc(fa, fi, kept);
    }
  }

  /**
   * The query keeps the table's order: two records it keeps come out in the
   * order they had, with only the kept records of each stretch around them.
   */
  lemma KeepsOrder(
    before: seq<Task>, x: Task, between: seq<Task>, y: Task, after: seq<Task>,
    c: Criteria, extra: Option<Task -> bool>)
    requires Keep(x, c, extra) && Keep(y, c, extra)
    ensures Filter(before + [x] + between + [y] + after, c, extra)
      == Filter(before, c, extra) + [x] + Filter(between, c, extra) + [y] + Filter(after, c, extra)
  {
    FilterAppend(before + [x] + between + [y], after, c, extra);
    FilterAppend(before + [x] + between, [y], c, extra);
    FilterAppend(before + [x], between, c, extra);
    FilterAppend(before, [x], c, extra);
    assert [x][..0] == [] && [y][..0] == [];
  }
}
