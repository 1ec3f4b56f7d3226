/**
 * The drop handler of the bucket lists (`onEnd`): the dragged task is
 * reassigned to the destination bucket, the destination list is
 * rebalanced in its new on-screen order, and the source list as well when
 * the task changed bucket.
 */
module Drop {
  import opened Wrappers
  import opened Tasks
  import opened Ordering
  import opened OrderingLemmas
  import opened TaskList

  /** `task.assignedTo = newAssignedTo` on the first task with the id, unless it is missing or the divider. */
  function AssignDragged(tasks: seq<Task>, taskId: int, assignedTo: Option<string>): (r: seq<Task>)
    ensures SameIds(tasks, r)
    ensures forall k :: 0 <= k < |tasks| ==> r[k].(assignedTo := tasks[k].assignedTo) == tasks[k]
    ensures forall k :: 0 <= k < |tasks| && (taskId == BACKLOG_MARKER_ID || FindIndex(tasks, taskId) != Some(k)) ==> r[k] == tasks[k]
    ensures taskId != BACKLOG_MARKER_ID && FindIndex(tasks, taskId).Some? ==>
              r[FindIndex(tasks, taskId).value].assignedTo == assignedTo
  {
    match FindIndex(tasks, taskId)
    case None => tasks
    case Some(k) =>
      if taskId == BACKLOG_MARKER_ID then tasks
      else tasks[k := tasks[k].(assignedTo := assignedTo)]
  }

  /** Reassigning keeps every priority, so the divider's too. */
  lemma AssignDraggedKeepsPriorities(tasks: seq<Task>, taskId: int, assignedTo: Option<string>, id: int)
    ensures PriorityOf(AssignDragged(tasks, taskId, assignedTo), id) == PriorityOf(tasks, id)
  {
    FindIndexSameIds(tasks, AssignDragged(tasks, taskId, assignedTo), id);
  }

  /**
   * The store after dropping task `taskId` from the list of bucket
   * `fromOption` (on-screen order `fromDom`) into the list of bucket
   * `toOption` (`toDom`); an empty bucket name is the Unallocated list.
   */
  function Dropped(tasks: seq<Task>, taskId: int, toOption: string, fromOption: string,
                   toDom: seq<int>, fromDom: seq<int>): seq<Task>
    requires DividerPriorityNumeric(tasks)
  {
    var newAssignedTo := OrNull(toOption);
    var oldAssignedTo := OrNull(fromOption);
    var reassigned := AssignDragged(tasks, taskId, newAssignedTo);
    AssignDraggedKeepsPriorities(tasks, taskId, newAssignedTo, BACKLOG_MARKER_ID);
    FindIndexSameIds(tasks, reassigned, BACKLOG_MARKER_ID);
    var afterTo := Rebalanced(reassigned, toDom);
    RebalanceTouchesOnlyShownPriorities(reassigned, toDom);
    if newAssignedTo == oldAssignedTo then afterTo else Rebalanced(afterTo, fromDom)
  }

  /** `b` differs from `a` in priorities at most. */
  ghost predicate OnlyPrioritiesDiffer(a: seq<Task>, b: seq<Task>) {
    && SameIds(a, b)
    && (forall k :: 0 <= k < |a| ==> b[k].(priority := a[k].priority) == a[k])
    && PriorityOf(b, BACKLOG_MARKER_ID) == PriorityOf(a, BACKLOG_MARKER_ID)
  }

  lemma RebalanceOnlyPriorities(tasks: seq<Task>, dom: seq<int>)
    requires DividerPriorityNumeric(tasks)
    ensures OnlyPrioritiesDiffer(tasks, Rebalanced(tasks, dom))
    ensures DividerPriorityNumeric(Rebalanced(tasks, dom))
  {
    RebalanceTouchesOnlyShownPriorities(tasks, dom);
  }

  /** What the second rebalance (of the source list) keeps. */
  lemma DroppedAfterTo(tasks: seq<Task>, taskId: int, toOption: string, fromOption: string, toDom: seq<int>, fromDom: seq<int>)
    requires DividerPriorityNumeric(tasks)
    ensures var mid := AssignDragged(tasks, taskId, OrNull(toOption));
      DividerPriorityNumeric(mid) && DividerPriorityNumeric(Rebalanced(mid, toDom))
      && OnlyPrioritiesDiffer(Rebalanced(mid, toDom), Dropped(tasks, taskId, toOption, fromOption, toDom, fromDom))
      && OnlyPrioritiesDiffer(mid, Rebalanced(mid, toDom))
  {
    var mid := AssignDragged(tasks, taskId, OrNull(toOption));
    AssignDraggedKeepsPriorities(tasks, taskId, OrNull(toOption), BACKLOG_MARKER_ID);
    FindIndexSameIds(tasks, mid, BACKLOG_MARKER_ID);
    RebalanceOnlyPriorities(mid, toDom);
    var afterTo := Rebalanced(mid, toDom);
    if OrNull(toOption) != OrNull(fromOption) {
      RebalanceOnlyPriorities(afterTo, fromDom);
    } else {
      assert Dropped(tasks, taskId, toOption, fromOption, toDom, fromDom) == afterTo;
    }
  }

  lemma OnlyPrioritiesDifferTrans(a: seq<Task>, b: seq<Task>, c: seq<Task>)
    requires OnlyPrioritiesDiffer(a, b) && OnlyPrioritiesDiffer(b, c)
    ensures OnlyPrioritiesDiffer(a, c)
  {
    forall k | 0 <= k < |a|
      ensures c[k].(priority := a[k].priority) == a[k]
    {
      assert b[k].(priority := a[k].priority) == a[k];
      assert c[k].(priority := b[k].priority) == b[k];
    }
  }

  /** A reassignment followed by changes to priorities only. */
  lemma ReassignedThenRepriced(tasks: seq<Task>, mid: seq<Task>, r: seq<Task>, taskId: int, assignedTo: Option<string>)
    requires mid == AssignDragged(tasks, taskId, assignedTo)
    requires PriorityOf(mid, BACKLOG_MARKER_ID) == PriorityOf(tasks, BACKLOG_MARKER_ID)
    requires OnlyPrioritiesDiffer(mid, r)
    ensures && SameIds(tasks, r)
      && (taskId != BACKLOG_MARKER_ID && FindIndex(tasks, taskId).Some? ==>
            r[FindIndex(tasks, taskId).value].assignedTo == assignedTo)
      && (forall k :: 0 <= k < |tasks| && (taskId == BACKLOG_MARKER_ID || FindIndex(tasks, taskId) != Some(k)) ==>
            r[k].assignedTo == tasks[k].assignedTo)
      && (forall k :: 0 <= k < |tasks| ==>
            r[k].(priority := tasks[k].priority, assignedTo := tasks[k].assignedTo) == tasks[k])
      && PriorityOf(r, BACKLOG_MARKER_ID) == PriorityOf(tasks, BACKLOG_MARKER_ID)
  {
    forall k | 0 <= k < |tasks|
      ensures r[k].(priority := tasks[k].priority, assignedTo := tasks[k].assignedTo) == tasks[k]
    {
      assert r[k].(priority := mid[k].priority) == mid[k];
      assert mid[k].(assignedTo := tasks[k].assignedTo) == tasks[k];
    }
  }

  /**
   * A drop changes the dragged task's bucket (to the destination name, or
   * none for Unallocated) and otherwise only priorities; ids, order and the
   * divider's priority are kept.
   */
  lemma DropReassigns(tasks: seq<Task>, taskId: int, toOption: string, fromOption: string, toDom: seq<int>, fromDom: seq<int>)
    requires DividerPriorityNumeric(tasks)
    ensures var r := Dropped(tasks, taskId, toOption, fromOption, toDom, fromDom);
      && SameIds(tasks, r)
      && (taskId != BACKLOG_MARKER_ID && FindIndex(tasks, taskId).Some? ==>
            r[FindIndex(tasks, taskId).value].assignedTo == OrNull(toOption))
      && (forall k :: 0 <= k < |tasks| && (taskId == BACKLOG_MARKER_ID || FindIndex(tasks, taskId) != Some(k)) ==>
            r[k].assignedTo == tasks[k].assignedTo)
      && (forall k :: 0 <= k < |tasks| ==>
            r[k].(priority := tasks[k].priority, assignedTo := tasks[k].assignedTo) == tasks[k])
      && PriorityOf(r, BACKLOG_MARKER_ID) == PriorityOf(tasks, BACKLOG_MARKER_ID)
  {
    var mid := AssignDragged(tasks, taskId, OrNull(toOption));
    var afterTo := Rebalanced(mid, toDom);
    var r := Dropped(tasks, taskId, toOption, fromOption, toDom, fromDom);
    DroppedAfterTo(tasks, taskId, toOption, fromOption, toDom, fromDom);
    OnlyPrioritiesDifferTrans(mid, afterTo, r);
    AssignDraggedKeepsPriorities(tasks, taskId, OrNull(toOption), BACKLOG_MARKER_ID);
    ReassignedThenRepriced(tasks, mid, r, taskId, OrNull(toOption));
  }

  /** Tasks the second rebalance does not show keep their priority. */
  lemma SecondRebalanceKeeps(afterTo: seq<Task>, fromDom: seq<int>, id: int)
    requires DividerPriorityNumeric(afterTo) && id !in fromDom
    ensures PriorityOf(Rebalanced(afterTo, fromDom), id) == PriorityOf(afterTo, id)
  {
    RebalanceTouchesOnlyShownPriorities(afterTo, fromDom);
    FindIndexSameIds(afterTo, Rebalanced(afterTo, fromDom), id);
  }

  /** The destination list is in order after its own rebalance. */
  lemma DestinationInOrder(tasks: seq<Task>, mid: seq<Task>, toDom: seq<int>)
    requires DividerPriorityNumeric(tasks) && Distinct(toDom)
    requires SameIds(tasks, mid) && forall id :: PriorityOf(mid, id) == PriorityOf(tasks, id)
    requires SegmentReady(tasks, SplitAtDivider(toDom).0, true, Pivot(tasks))
    requires SegmentReady(tasks, SplitAtDivider(toDom).1, false, Pivot(tasks))
    ensures DividerPriorityNumeric(mid)
    ensures ShownInOrder(tasks, Rebalanced(mid, toDom), WithoutDividers(toDom))
  {
    FindIndexSameIds(tasks, mid, BACKLOG_MARKER_ID);
    assert PriorityOf(mid, BACKLOG_MARKER_ID) == PriorityOf(tasks, BACKLOG_MARKER_ID);
    var (above, below) := SplitAtDivider(toDom);
    SegmentReadyTransfer(tasks, mid, above, true, Pivot(tasks));
    SegmentReadyTransfer(tasks, mid, below, false, Pivot(tasks));
    RebalancedFollowsScreenOrder(mid, toDom);
    forall id ensures FindIndex(tasks, id) == FindIndex(mid, id) {
      FindIndexSameIds(tasks, mid, id);
    }
  }

  /** Order along `shown` survives any rewrite that keeps the priorities of `shown`. */
  lemma ShownInOrderTransfer(tasks: seq<Task>, a: seq<Task>, b: seq<Task>, shown: seq<int>)
    requires ShownInOrder(tasks, a, shown)
    requires forall id :: id in shown ==> PriorityOf(b, id) == PriorityOf(a, id)
    ensures ShownInOrder(tasks, b, shown)
  {
    forall j, k | 0 <= j < k < |shown| && FindIndex(tasks, shown[j]).Some? && FindIndex(tasks, shown[k]).Some?
      ensures PriorityOf(b, shown[j]).Some? && PriorityOf(b, shown[k]).Some?
        && PriorityOf(b, shown[j]).value < PriorityOf(b, shown[k]).value
    {
      assert shown[j] in shown && shown[k] in shown;
    }
  }

  /**
   * Items stick where they are dropped: when each of the destination's
   * segments is ready (a pure reorder with no shared priority, or a crossing
   * with its incumbents in order) and the source list shares no task with the
   * destination, sorting the destination bucket by priority after the drop
   * reproduces its on-screen order.
   */
  lemma DropLandsWhereDropped(tasks: seq<Task>, taskId: int, toOption: string, fromOption: string, toDom: seq<int>, fromDom: seq<int>)
    requires DividerPriorityNumeric(tasks) && Distinct(toDom)
    requires forall id :: id in toDom && id in fromDom ==> id == BACKLOG_MARKER_ID
    requires SegmentReady(tasks, SplitAtDivider(toDom).0, true, Pivot(tasks))
    requires SegmentReady(tasks, SplitAtDivider(toDom).1, false, Pivot(tasks))
    ensures ShownInOrder(tasks, Dropped(tasks, taskId, toOption, fromOption, toDom, fromDom), WithoutDividers(toDom))
  {
    var mid := AssignDragged(tasks, taskId, OrNull(toOption));
    forall id ensures PriorityOf(mid, id) == PriorityOf(tasks, id) {
      AssignDraggedKeepsPriorities(tasks, taskId, OrNull(toOption), id);
    }
    DestinationInOrder(tasks, mid, toDom);
    var afterTo := Rebalanced(mid, toDom);
    var shown := WithoutDividers(toDom);
    DroppedShape(tasks, taskId, toOption, fromOption, toDom, fromDom);
    if OrNull(toOption) != OrNull(fromOption) {
      SourceRebalanceKeepsDestination(tasks, afterTo, toDom, fromDom);
    }
  }

  /** Rebalancing a source list that shares no task with the destination keeps the destination in order. */
  lemma SourceRebalanceKeepsDestination(tasks: seq<Task>, afterTo: seq<Task>, toDom: seq<int>, fromDom: seq<int>)
    requires DividerPriorityNumeric(afterTo)
    requires forall id :: id in toDom && id in fromDom ==> id == BACKLOG_MARKER_ID
    requires ShownInOrder(tasks, afterTo, WithoutDividers(toDom))
    ensures ShownInOrder(tasks, Rebalanced(afterTo, fromDom), WithoutDividers(toDom))
  {
    var shown := WithoutDividers(toDom);
    forall id | id in shown
      ensures PriorityOf(Rebalanced(afterTo, fromDom), id) == PriorityOf(afterTo, id)
    {
      assert id in toDom && id != BACKLOG_MARKER_ID;
      SecondRebalanceKeeps(afterTo, fromDom, id);
    }
    ShownInOrderTransfer(tasks, afterTo, Rebalanced(afterTo, fromDom), shown);
  }

  /** The two shapes of a drop: within one bucket, or across two. */
  lemma DroppedShape(tasks: seq<Task>, taskId: int, toOption: string, fromOption: string, toDom: seq<int>, fromDom: seq<int>)
    requires DividerPriorityNumeric(tasks)
    ensures var mid := AssignDragged(tasks, taskId, OrNull(toOption));
      && DividerPriorityNumeric(mid) && DividerPriorityNumeric(Rebalanced(mid, toDom))
      && Dropped(tasks, taskId, toOption, fromOption, toDom, fromDom) ==
         if OrNull(toOption) == OrNull(fromOption) then Rebalanced(mid, toDom)
         else Rebalanced(Rebalanced(mid, toDom), fromDom)
  {
    DroppedAfterTo(tasks, taskId, toOption, fromOption, toDom, fromDom);
  }
}
