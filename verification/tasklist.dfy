/**
 * Whole-list task operations: injecting the backlog divider, choosing fresh
 * ids (`Math.max(...ids) + 1`), and the global renumbering that runs when a
 * task is added (`normalizeAndGetNextPriority`).
 */
module TaskList {
  import opened Wrappers
  import opened Tasks

  const DIVIDER_TEXT: string := "-- Backlog Starts Here --"

  /** The pseudo-task pushed as the divider; its priority is the task count before the push. */
  function DividerTask(count: nat): Task {
    Task(BACKLOG_MARKER_ID, DIVIDER_TEXT, None, None, None, None, Some(count as real), false, true)
  }

  /** `injectBacklogDivider`: append a divider when no task carries id -1. */
  function WithDivider(tasks: seq<Task>): (r: seq<Task>)
    ensures FindIndex(r, BACKLOG_MARKER_ID).Some?
    ensures |tasks| <= |r| <= |tasks| + 1 && r[..|tasks|] == tasks
    ensures |r| == |tasks| + 1 <==> forall k :: 0 <= k < |tasks| ==> tasks[k].id != BACKLOG_MARKER_ID
    ensures |r| == |tasks| + 1 ==> r[|tasks|] == DividerTask(|tasks|)
  {
    if FindIndex(tasks, BACKLOG_MARKER_ID).Some? then tasks
    else
      var r := tasks + [DividerTask(|tasks|)];
      assert r[|tasks|].id == BACKLOG_MARKER_ID;
      r
  }

  /** Injecting twice is injecting once. */
  lemma WithDividerIdempotent(tasks: seq<Task>)
    ensures WithDivider(WithDivider(tasks)) == WithDivider(tasks)
  {
  }

  /** After injection into a list without a divider, exactly one task carries id -1. */
  lemma WithDividerSingle(tasks: seq<Task>)
    requires forall k :: 0 <= k < |tasks| ==> tasks[k].id != BACKLOG_MARKER_ID
    ensures var r := WithDivider(tasks);
      forall k :: 0 <= k < |r| && r[k].id == BACKLOG_MARKER_ID ==> k == |tasks|
  {
  }

  // ---------------------------------------------------------------------
  // Fresh ids
  // ---------------------------------------------------------------------

  function MaxOf(ids: seq<int>): (r: int)
    requires ids != []
    ensures r in ids && forall x :: x in ids ==> x <= r
  {
    if |ids| == 1 then ids[0]
    else
      var m := MaxOf(ids[1..]);
      assert forall x :: x in ids ==> x == ids[0] || x in ids[1..];
      if ids[0] >= m then ids[0] else m
  }

  /** `ids.length > 0 ? Math.max(...ids) + 1 : 1`. */
  function NextId(ids: seq<int>): (r: int)
    ensures ids == [] ==> r == 1
    ensures forall x :: x in ids ==> x < r
    ensures ids != [] ==> r - 1 in ids
  {
    if ids == [] then 1 else MaxOf(ids) + 1
  }

  /** `xs.map(x => x.id)`: the ids of a list of records, position by position. */
  function IdsOf<T>(xs: seq<T>, key: T -> int): (r: seq<int>)
    ensures |r| == |xs| && forall k :: 0 <= k < |xs| ==> r[k] == key(xs[k])
  {
    seq(|xs|, k requires 0 <= k < |xs| => key(xs[k]))
  }

  function TaskId(t: Task): int { t.id }

  function MilestoneId(m: Milestone): int { m.id }

  /** The id `generateUniqueTaskId` hands out is carried by no task. */
  lemma NextTaskIdFresh(tasks: seq<Task>)
    ensures forall k :: 0 <= k < |tasks| ==> tasks[k].id < NextId(IdsOf(tasks, TaskId))
  {
    var ids := IdsOf(tasks, TaskId);
    forall k | 0 <= k < |tasks|
      ensures tasks[k].id < NextId(ids)
    {
      assert ids[k] in ids;
    }
  }

  // ---------------------------------------------------------------------
  // Renumbering
  // ---------------------------------------------------------------------

  /** `typeof t.priority === 'number'`. */
  predicate Numeric(tasks: seq<Task>, k: int) {
    0 <= k < |tasks| && tasks[k].priority.Some?
  }

  /**
   * The order the stable sort by `a.priority - b.priority` puts numeric
   * tasks in: lower priority first, equal priorities in list order.
   */
  predicate Before(tasks: seq<Task>, j: int, k: int)
    requires Numeric(tasks, j) && Numeric(tasks, k)
  {
    var pj, pk := tasks[j].priority.value, tasks[k].priority.value;
    pj < pk || (pj == pk && j < k)
  }

  /** Positions of the tasks with a numeric priority (the `filter`), in list order. */
  function NumericFrom(tasks: seq<Task>, from: nat): (r: seq<nat>)
    requires from <= |tasks|
    ensures forall x :: x in r <==> from <= x && Numeric(tasks, x)
    ensures forall i, j :: 0 <= i < j < |r| ==> r[i] < r[j]
    decreases |tasks| - from
  {
    if from == |tasks| then []
    else
      var rest := NumericFrom(tasks, from + 1);
      var head: seq<nat> := if Numeric(tasks, from) then [from] else [];
      var r := head + rest;
      forall i, j | 0 <= i < j < |r|
        ensures r[i] < r[j]
      {
        assert r[j] == rest[j - |head|] && rest[j - |head|] in rest;
        if i >= |head| {
          assert r[i] == rest[i - |head|];
        }
      }
      r
  }

  function NumericPositions(tasks: seq<Task>): (r: seq<nat>)
    ensures forall x :: x in r <==> Numeric(tasks, x)
    ensures forall i, j :: 0 <= i < j < |r| ==> r[i] < r[j]
  {
    NumericFrom(tasks, 0)
  }

  /** Strictly increasing in `Before`, which also makes the positions distinct. */
  ghost predicate SortedBefore(tasks: seq<Task>, s: seq<nat>)
    requires forall x :: x in s ==> Numeric(tasks, x)
  {
    forall i, j :: 0 <= i < j < |s| ==> Before(tasks, s[i], s[j])
  }

  function InsertPosition(tasks: seq<Task>, k: nat, s: seq<nat>): (r: seq<nat>)
    requires Numeric(tasks, k) && k !in s
    requires forall x :: x in s ==> Numeric(tasks, x)
    requires SortedBefore(tasks, s)
    ensures |r| == |s| + 1 && forall x :: x in r <==> x == k || x in s
    ensures SortedBefore(tasks, r)
  {
    if s == [] || Before(tasks, k, s[0]) then [k] + s
    else
      var rest := InsertPosition(tasks, k, s[1..]);
      assert forall x :: x in s[1..] ==> x in s;
      forall i | 0 <= i < |rest|
        ensures Before(tasks, s[0], rest[i])
      {
        if rest[i] != k {
          assert rest[i] in rest;
          var j :| 0 <= j < |s| - 1 && s[1..][j] == rest[i];
          assert s[j + 1] == rest[i];
        }
      }
      [s[0]] + rest
  }

  /** `validTasks.sort((a, b) => a.priority - b.priority)`, a stable sort. */
  function SortPositions(tasks: seq<Task>, s: seq<nat>): (r: seq<nat>)
    requires forall x :: x in s ==> Numeric(tasks, x)
    requires forall i, j :: 0 <= i < j < |s| ==> s[i] != s[j]
    ensures |r| == |s| && forall x :: x in r <==> x in s
    ensures SortedBefore(tasks, r)
  {
    if s == [] then []
    else
      assert forall x :: x in s[1..] ==> x in s;
      assert s[0] !in s[1..];
      InsertPosition(tasks, s[0], SortPositions(tasks, s[1..]))
  }

  /** The numeric tasks that the stable sort puts before position `k`. */
  ghost function Predecessors(tasks: seq<Task>, k: nat): set<nat>
    requires Numeric(tasks, k)
  {
    set j: nat | j < |tasks| && Numeric(tasks, j) && Before(tasks, j, k)
  }

  /** The index the renumbering gives the task at `k`: how many numeric tasks sort before it. */
  ghost function Rank(tasks: seq<Task>, k: nat): nat
    requires Numeric(tasks, k)
  {
    |Predecessors(tasks, k)|
  }

  /** The list after `normalizeAndGetNextPriority`: every numeric priority replaced by its rank. */
  ghost function Renumbered(tasks: seq<Task>): (r: seq<Task>)
    ensures |r| == |tasks|
  {
    seq(|tasks|, k requires 0 <= k < |tasks| =>
      if Numeric(tasks, k) then tasks[k].(priority := Some(Rank(tasks, k) as real)) else tasks[k])
  }

  ghost function SetOf(s: seq<nat>): set<nat> {
    set x | x in s
  }

  lemma {:induction false} DistinctCard(s: seq<nat>)
    requires forall i, j :: 0 <= i < j < |s| ==> s[i] != s[j]
    ensures |SetOf(s)| == |s|
  {
    if s != [] {
      var init := s[..|s| - 1];
      DistinctCard(init);
      var last := s[|s| - 1];
      assert s == init + [last];
      var a, b := SetOf(init), SetOf(s);
      assert |a| == |init|;
      assert b == a + {last};
      assert last !in a;
      assert |b| == |a| + 1;
    }
  }

  lemma {:induction false} SubsetCard(a: set<nat>, b: set<nat>)
    requires a <= b
    ensures |a| <= |b|
    decreases a
  {
    if a != {} {
      var x :| x in a;
      SubsetCard(a - {x}, b - {x});
    }
  }

  /** Fixes the sorted order; the `i`-th position in it has exactly `i` predecessors. */
  lemma RankOfSorted(tasks: seq<Task>, order: seq<nat>, i: nat)
    requires forall x :: x in order <==> Numeric(tasks, x)
    requires SortedBefore(tasks, order) && i < |order|
    ensures Rank(tasks, order[i]) == i
  {
    var k := order[i];
    var prefix := order[..i];
    assert Predecessors(tasks, k) == SetOf(prefix) by {
      forall j: nat | j in Predecessors(tasks, k)
        ensures j in prefix
      {
        var m :| 0 <= m < |order| && order[m] == j;
      }
      forall j | j in prefix
        ensures j in Predecessors(tasks, k)
      {
        var m :| 0 <= m < i && prefix[m] == j;
        assert order[m] == j && order[m] in order;
        assert Before(tasks, order[m], order[i]);
      }
    }
    forall a, b | 0 <= a < b < |prefix|
      ensures prefix[a] != prefix[b]
    {
      assert Before(tasks, order[a], order[b]);
    }
    DistinctCard(prefix);
  }

  /** Sorting first and numbering `0, 1, ...` in sorted order is the same as numbering by rank. */
  lemma SortedOrderIsRank(tasks: seq<Task>)
    ensures var order := SortPositions(tasks, NumericPositions(tasks));
      forall i :: 0 <= i < |order| ==> Rank(tasks, order[i]) == i
  {
    var order := SortPositions(tasks, NumericPositions(tasks));
    forall i | 0 <= i < |order|
      ensures Rank(tasks, order[i]) == i
    {
      RankOfSorted(tasks, order, i);
    }
  }

  /**
   * The renumbering is one-to-one from the numeric tasks into `0 .. n-1`,
   * where `n` is their count (so onto it as well), and `n`, the value
   * returned for the new task, exceeds every number handed out.
   */
  lemma RenumberedIsBijection(tasks: seq<Task>)
    ensures var n := |NumericPositions(tasks)|;
      && (forall k :: Numeric(tasks, k) ==> Rank(tasks, k) < n)
      && (forall j, k :: Numeric(tasks, j) && Numeric(tasks, k) && j != k ==> Rank(tasks, j) != Rank(tasks, k))
  {
    var order := SortPositions(tasks, NumericPositions(tasks));
    SortedOrderIsRank(tasks);
    forall k | Numeric(tasks, k)
      ensures Rank(tasks, k) < |order|
    {
      var m :| 0 <= m < |order| && order[m] == k;
      RankOfSorted(tasks, order, m);
    }
    forall j, k | Numeric(tasks, j) && Numeric(tasks, k) && j != k
      ensures Rank(tasks, j) != Rank(tasks, k)
    {
      var a :| 0 <= a < |order| && order[a] == j;
      var b :| 0 <= b < |order| && order[b] == k;
      RankOfSorted(tasks, order, a);
      RankOfSorted(tasks, order, b);
    }
  }

  /**
   * Renumbering keeps the order the priorities gave: a lower priority stays
   * lower, and equal priorities are separated in list order (stable sort).
   */
  lemma RenumberedKeepsOrder(tasks: seq<Task>, j: nat, k: nat)
    requires Numeric(tasks, j) && Numeric(tasks, k)
    requires Before(tasks, j, k)
    ensures Rank(tasks, j) < Rank(tasks, k)
  {
    var pj, pk := Predecessors(tasks, j), Predecessors(tasks, k);
    forall i | i in pj
      ensures i in pk
    {
      assert Before(tasks, i, j);
    }
    assert j in pk && j !in pj;
    SubsetCard(pj + {j}, pk);
  }

  /** Renumbering changes only the priorities of numeric tasks. */
  lemma RenumberedOnlyPriorities(tasks: seq<Task>)
    ensures var r := Renumbered(tasks);
      && (forall k :: 0 <= k < |tasks| ==> r[k].(priority := tasks[k].priority) == tasks[k])
      && (forall k :: 0 <= k < |tasks| && !Numeric(tasks, k) ==> r[k] == tasks[k])
      && (forall k :: 0 <= k < |tasks| ==> r[k].priority.Some? == tasks[k].priority.Some?)
  {
  }

  /**
   * The task `addTask` appends after renumbering gets an id no task has and a
   * priority above every renumbered one, so it sorts last.
   */
  lemma NewTaskIsFreshAndLast(tasks: seq<Task>, text: string, milestoneId: Option<int>, date: Option<string>,
                              category: Option<string>, assignedTo: Option<string>)
    ensures var t := NewTask(NextId(IdsOf(tasks, TaskId)), text, milestoneId, date, category, assignedTo, |NumericPositions(tasks)|);
      var r := Renumbered(tasks);
      forall k :: 0 <= k < |r| ==>
        r[k].id != t.id && (r[k].priority.Some? ==> r[k].priority.value < t.priority.value)
  {
    NextTaskIdFresh(tasks);
    RenumberedIsBijection(tasks);
    RenumberedOnlyPriorities(tasks);
  }

  // ---------------------------------------------------------------------
  // A new task
  // ---------------------------------------------------------------------

  /** JavaScript `s || null` on a string: the empty string counts as absent. */
  function OrNull(s: string): (r: Option<string>)
    ensures r.None? <==> s == ""
    ensures r.Some? ==> r.value == s
  {
    if s == "" then None else Some(s)
  }

  /**
   * The record `addTask` pushes. The due date is dropped when a (truthy)
   * milestone is chosen; `completed` and `isBacklogDivider` are absent, so false.
   */
  function NewTask(id: int, text: string, milestoneId: Option<int>, date: Option<string>,
                   category: Option<string>, assignedTo: Option<string>, priority: nat): (t: Task)
    ensures t.due.Some? <==> date.Some? && (milestoneId.None? || milestoneId.value == 0)
    ensures t.id == id && t.text == text && t.milestoneId == milestoneId && t.priority == Some(priority as real)
    ensures t.due.Some? ==> t.due == date
    ensures t.assignedTo == assignedTo && t.category == category
    ensures !t.completed && !t.isBacklogDivider
  {
    var linked := milestoneId.Some? && milestoneId.value != 0;
    Task(id, text, assignedTo, if linked then None else date, milestoneId, category,
         Some(priority as real), false, false)
  }
}
