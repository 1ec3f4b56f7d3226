/**
 * The dashboard's in-memory state and the handlers that change it in place:
 * the global `tasks`, `milestones` and `allocationOptions` arrays, held by
 * one `Store`. Every method is proved to leave the store exactly as the
 * specification function of its module says.
 */
module Dashboard {
  import opened Wrappers
  import opened Text
  import opened Tasks
  import opened Ordering
  import opened TaskList
  import opened Allocations
  import opened Milestones
  import opened Drop

  /** Helper for the loop in `Store.ApplyPriorities`: a non-empty set has an element to pick. */
  lemma NonEmptyHasMember(s: set<int>)
    requires s != {}
    ensures exists x :: x in s
  {
    if forall x :: x !in s {
      assert false;
    }
  }

  /** What the divider-splitting loop knows after reading `dom[..i]`. */
  ghost predicate SplitSoFar(dom: seq<int>, i: nat, seenDivider: bool, above: seq<int>, below: seq<int>)
  {
    && i <= |dom|
    && (!seenDivider <==> BACKLOG_MARKER_ID !in dom[..i])
    && (!seenDivider ==> above == dom[..i] && below == [])
    && (seenDivider ==> above == SplitAtDivider(dom).0)
    && above + below == WithoutDividers(dom[..i])
  }

  lemma SplitStep(dom: seq<int>, i: nat, seenDivider: bool, above: seq<int>, below: seq<int>)
    requires i < |dom| && SplitSoFar(dom, i, seenDivider, above, below)
    ensures var id := dom[i];
      if id == BACKLOG_MARKER_ID then SplitSoFar(dom, i + 1, true, above, below)
      else if seenDivider then SplitSoFar(dom, i + 1, true, above, below + [id])
      else SplitSoFar(dom, i + 1, false, above + [id], below)
  {
    var id := dom[i];
    assert dom[..i + 1] == dom[..i] + [id];
    WithoutDividersAppend(dom[..i], [id]);
    assert [id][1..] == [];
    if id == BACKLOG_MARKER_ID && !seenDivider {
      SplitAtFirstDivider(dom, i);
    }
  }

  lemma SplitDone(dom: seq<int>, seenDivider: bool, above: seq<int>, below: seq<int>)
    requires SplitSoFar(dom, |dom|, seenDivider, above, below)
    ensures (above, below) == SplitAtDivider(dom)
  {
    assert dom[..|dom|] == dom;
    if !seenDivider {
      SplitWithoutDivider(dom);
    }
    var split := SplitAtDivider(dom);
    assert below == (above + below)[|above|..];
    assert split.1 == (split.0 + split.1)[|split.0|..];
  }

  /**
   * The first loop of `rebalanceGroupPrioritiesForDomOrder`: the ids before
   * the first divider, and the ids after it with any further dividers dropped.
   */
  method SplitDom(dom: seq<int>) returns (idsAbove: seq<int>, idsBelow: seq<int>)
    ensures (idsAbove, idsBelow) == SplitAtDivider(dom)
  {
    idsAbove, idsBelow := [], [];
    var seenDivider := false;
    var i := 0;
    while i < |dom|
      invariant SplitSoFar(dom, i, seenDivider, idsAbove, idsBelow)
    {
      var id := dom[i];
      SplitStep(dom, i, seenDivider, idsAbove, idsBelow);
      if id == BACKLOG_MARKER_ID {
        seenDivider := true;
      } else if seenDivider {
        idsBelow := idsBelow + [id];
      } else {
        idsAbove := idsAbove + [id];
      }
      i := i + 1;
    }
    SplitDone(dom, seenDivider, idsAbove, idsBelow);
  }

  /** The renumbering loop after it has numbered the first `i` positions of the sorted order. */
  ghost predicate RenumberedSoFar(orig: seq<Task>, order: seq<nat>, i: nat, tasks: seq<Task>)
  {
    && i <= |order|
    && |tasks| == |orig|
    && forall k :: 0 <= k < |orig| ==>
         tasks[k] == (if k in order[..i] then Renumbered(orig)[k] else orig[k])
  }

  lemma RenumberStep(orig: seq<Task>, order: seq<nat>, i: nat, tasks: seq<Task>)
    requires forall x :: x in order <==> Numeric(orig, x)
    requires SortedBefore(orig, order)
    requires i < |order| && RenumberedSoFar(orig, order, i, tasks)
    ensures order[i] < |tasks|
    ensures RenumberedSoFar(orig, order, i + 1, tasks[order[i] := tasks[order[i]].(priority := Some(i as real))])
  {
    var k := order[i];
    assert order[i] in order;
    RankOfSorted(orig, order, i);
    assert k !in order[..i] by {
      forall m | 0 <= m < i
        ensures order[m] != k
      {
        assert Before(orig, order[m], order[i]);
      }
    }
    assert order[..i + 1] == order[..i] + [k];
  }

  lemma RenumberDone(orig: seq<Task>, order: seq<nat>, tasks: seq<Task>)
    requires forall x :: x in order <==> Numeric(orig, x)
    requires RenumberedSoFar(orig, order, |order|, tasks)
    ensures tasks == Renumbered(orig)
  {
    assert order[..|order|] == order;
  }

  /** The store after the first `n` writes of the reorder, one `SetPriority` at a time. */
  ghost function Written(orig: seq<Task>, ids: seq<int>, priorities: seq<real>, n: nat): seq<Task>
    requires n <= |ids| && n <= |priorities|
  {
    if n == 0 then orig
    else SetPriority(Written(orig, ids, priorities, n - 1), ids[n - 1], priorities[n - 1])
  }

  /** Writing one id at a time builds up `Apply` of the reorder map. */
  lemma {:induction false} WrittenIsApply(orig: seq<Task>, ids: seq<int>, priorities: seq<real>, n: nat)
    requires n <= |ids| && n <= |priorities|
    ensures Written(orig, ids, priorities, n) == Apply(orig, ReorderMap(ids, priorities, n))
  {
    if n == 0 {
      ApplyEmpty(orig);
    } else {
      WrittenIsApply(orig, ids, priorities, n - 1);
      var m := ReorderMap(ids, priorities, n - 1);
      assert ReorderMap(ids, priorities, n) == m[ids[n - 1] := priorities[n - 1]];
      ApplyUpdate(orig, m, ids[n - 1], priorities[n - 1]);
    }
  }

  class Store {
    var tasks: seq<Task>
    var milestones: seq<Milestone>
    var allocationOptions: seq<Allocation>

    constructor(tasks0: seq<Task>, milestones0: seq<Milestone>, options0: seq<Allocation>)
      ensures tasks == tasks0 && milestones == milestones0 && allocationOptions == options0
    {
      tasks := tasks0;
      milestones := milestones0;
      allocationOptions := options0;
    }

    // -------------------------------------------------------------------
    // Tasks
    // -------------------------------------------------------------------

    /** `generateUniqueTaskId`: one more than the largest id, 1 for no tasks. */
    function GenerateUniqueTaskId(): (id: int)
      reads this
      ensures forall k :: 0 <= k < |tasks| ==> tasks[k].id < id
      ensures tasks == [] ==> id == 1
      ensures tasks != [] ==> exists k :: 0 <= k < |tasks| && tasks[k].id == id - 1
    {
      NextTaskIdFresh(tasks);
      var ids := IdsOf(tasks, TaskId);
      assert tasks != [] ==> ids[0] in ids;
      NextId(ids)
    }

    /** `generateUniqueMilestoneId`: one more than the largest id, 1 for no milestones. */
    function GenerateUniqueMilestoneId(): (id: int)
      reads this
      ensures forall k :: 0 <= k < |milestones| ==> milestones[k].id < id
      ensures milestones == [] ==> id == 1
      ensures milestones != [] ==> exists k :: 0 <= k < |milestones| && milestones[k].id == id - 1
    {
      var ids := IdsOf(milestones, MilestoneId);
      assert forall k :: 0 <= k < |milestones| ==> ids[k] in ids;
      assert milestones != [] ==> ids[0] in ids;
      NextId(ids)
    }

    /** `injectBacklogDivider`. */
    method InjectBacklogDivider()
      modifies this`tasks
      ensures tasks == WithDivider(old(tasks))
    {
      if FindIndex(tasks, BACKLOG_MARKER_ID).None? {
        tasks := tasks + [DividerTask(|tasks|)];
      }
    }

    /**
     * `normalizeAndGetNextPriority`: sort the numeric tasks by priority
     * (stably) and number them 0, 1, ... in that order; return the count.
     */
    method NormalizeAndGetNextPriority() returns (next: nat)
      modifies this`tasks
      ensures tasks == Renumbered(old(tasks))
      ensures next == |NumericPositions(old(tasks))|
    {
      ghost var orig := tasks;
      var order := SortPositions(tasks, NumericPositions(tasks));
      var i := 0;
      while i < |order|
        invariant RenumberedSoFar(orig, order, i, tasks)
      {
        RenumberStep(orig, order, i, tasks);
        var k := order[i];
        tasks := tasks[k := tasks[k].(priority := Some(i as real))];
        i := i + 1;
      }
      RenumberDone(orig, order, tasks);
      next := |order|;
    }

    /**
     * The "add task" button: a blank name adds nothing; otherwise the id is
     * chosen, the list renumbered, and the new task appended with the next
     * priority. Empty form fields count as absent.
     */
    method AddTask(nameRaw: string, milestoneId: Option<int>, dateRaw: string, categoryRaw: string, allocationRaw: string)
      returns (added: bool)
      modifies this`tasks
      ensures added <==> JsTrim(nameRaw) != ""
      ensures !added ==> tasks == old(tasks)
      ensures added ==> (tasks == Renumbered(old(tasks)) +
        [NewTask(NextId(IdsOf(old(tasks), TaskId)), JsTrim(nameRaw), milestoneId, OrNull(dateRaw),
                 OrNull(categoryRaw), OrNull(allocationRaw), |NumericPositions(old(tasks))|)])
    {
      var name := JsTrim(nameRaw);
      if name == "" {
        return false;
      }
      var newId := GenerateUniqueTaskId();
      var priority := NormalizeAndGetNextPriority();
      tasks := tasks + [NewTask(newId, name, milestoneId, OrNull(dateRaw), OrNull(categoryRaw), OrNull(allocationRaw), priority)];
      added := true;
    }

    // -------------------------------------------------------------------
    // Keeping the on-screen order in the priorities
    // -------------------------------------------------------------------

    /** `assignSegment(ids, isAbove)` against the divider priority `pivot`. */
    method AssignSegment(ids: seq<int>, isAbove: bool, pivot: real)
      modifies this`tasks
      ensures tasks == AssignedSegment(old(tasks), ids, isAbove, pivot)
    {
      var incumbents := Incumbents(tasks, ids, isAbove, pivot);
      var crossers := Crossers(ids, incumbents);
      if |crossers| == 0 {
        // A pure reorder: hand the segment's own values out again in screen order.
        assert incumbents == ids;
        var priorities := Sort(PriorityValues(tasks, incumbents));
        WriteInScreenOrder(ids, priorities);
      } else {
        // Some tasks crossed the divider: keep the incumbents' values, mint the others.
        var seed := SeedIncumbents(incumbents);
        var newP := MintCrossers(ids, isAbove, pivot, seed);
        ApplyPriorities(newP);
      }
    }

    /** Case 1 of `assignSegment`: the `i`-th id gets `priorities[i]`. */
    method WriteInScreenOrder(ids: seq<int>, priorities: seq<real>)
      requires |ids| <= |priorities|
      modifies this`tasks
      ensures tasks == Apply(old(tasks), ReorderMap(ids, priorities, |ids|))
    {
      ghost var orig := tasks;
      assert orig == old(tasks);
      for i := 0 to |ids|
        invariant tasks == Written(orig, ids, priorities, i)
      {
        ghost var before := tasks;
        var found := FindIndex(tasks, ids[i]);
        if found.Some? {
          tasks := tasks[found.value := tasks[found.value].(priority := Some(priorities[i]))];
        }
        assert tasks == SetPriority(before, ids[i], priorities[i]);
      }
      WrittenIsApply(orig, ids, priorities, |ids|);
    }

    /** `for (const id of incumbents) newP.set(id, getPriority(id))`. */
    method SeedIncumbents(incumbents: seq<int>) returns (newP: map<int, real>)
      requires forall id :: id in incumbents ==> PriorityOf(tasks, id).Some?
      ensures newP.Keys == set id | id in incumbents
      ensures forall id :: id in newP ==> Some(newP[id]) == PriorityOf(tasks, id)
      ensures newP == Seed(tasks, incumbents)
    {
      newP := map[];
      for j := 0 to |incumbents|
        invariant newP == Seed(tasks, incumbents[..j])
      {
        assert incumbents[j] in incumbents;
        assert incumbents[..j + 1][..j] == incumbents[..j];
        newP := newP[incumbents[j] := PriorityOf(tasks, incumbents[j]).value];
      }
      assert incumbents[..|incumbents|] == incumbents;
    }

    /**
     * The left-to-right walk of `assignSegment`: every id not yet in `newP`
     * gets a value between its nearest anchors, within the segment's bounds.
     */
    method MintCrossers(ids: seq<int>, isAbove: bool, pivot: real, seed: map<int, real>) returns (newP: map<int, real>)
      ensures newP == MintFrom(tasks, ids, isAbove, pivot, 0, seed)
    {
      newP := seed;
      for i := 0 to |ids|
        invariant MintFrom(tasks, ids, isAbove, pivot, i, newP) == MintFrom(tasks, ids, isAbove, pivot, 0, seed)
      {
        var id := ids[i];
        ghost var before := newP;
        if id !in newP {
          var prevAt := PrevAnchor(tasks, ids, i, newP, isAbove, pivot);
          var nextAt := NextAnchorFrom(tasks, ids, i + 1, newP, isAbove, pivot);
          var lower := if isAbove then NegInf else Fin(pivot);
          var upper := if isAbove then Fin(pivot) else PosInf;
          var pPrev := NeighborPriority(tasks, ids, prevAt, newP, isAbove, pivot);
          var pNext := NeighborPriority(tasks, ids, nextAt, newP, isAbove, pivot);
          if pPrev.Some? {
            lower := Fin(pPrev.value);
          }
          if pNext.Some? {
            upper := Fin(pNext.value);
          }
          var minted := Mint(lower, upper, isAbove, pivot);
          assert minted == MintAt(tasks, ids, i, newP, isAbove, pivot);
          newP := newP[id := minted];
        }
        assert MintFrom(tasks, ids, isAbove, pivot, i, before) == MintFrom(tasks, ids, isAbove, pivot, i + 1, newP);
      }
    }

    /** `newP.forEach((p, id) => ...)`: every value is written to the first task with its id. */
    method ApplyPriorities(newP: map<int, real>)
      modifies this`tasks
      ensures tasks == Apply(old(tasks), newP)
    {
      ghost var orig := tasks;
      var pending := newP.Keys;
      ghost var applied: map<int, real> := map[];
      ApplyEmpty(orig);
      while pending != {}
        invariant pending <= newP.Keys
        invariant applied.Keys == newP.Keys - pending
        invariant forall id :: id in applied ==> applied[id] == newP[id]
        invariant tasks == Apply(orig, applied)
        decreases pending
      {
        NonEmptyHasMember(pending);
        var id :| id in pending;
        ApplyUpdate(orig, applied, id, newP[id]);
        var found := FindIndex(tasks, id);
        if found.Some? {
          tasks := tasks[found.value := tasks[found.value].(priority := Some(newP[id]))];
        }
        applied := applied[id := newP[id]];
        pending := pending - {id};
      }
      assert applied.Keys == newP.Keys;
      assert forall id :: id in newP ==> applied[id] == newP[id];
      assert applied == newP;
    }

    /**
     * `rebalanceGroupPrioritiesForDomOrder`: split the list's on-screen ids
     * at the divider and reassign each segment against the divider priority.
     */
    method RebalanceGroupPrioritiesForDomOrder(dom: seq<int>)
      requires DividerPriorityNumeric(tasks)
      modifies this`tasks
      ensures tasks == Rebalanced(old(tasks), dom)
    {
      var idsAbove, idsBelow := SplitDom(dom);
      var pivot := Pivot(tasks);
      AssignSegment(idsAbove, true, pivot);
      AssignSegment(idsBelow, false, pivot);
    }

    /**
     * The drop handler: the dragged task (unless it is the divider) moves to
     * the destination bucket, then the destination list, and the source list
     * when the bucket changed, are rebalanced.
     */
    method OnEnd(taskId: int, toOption: string, fromOption: string, toDom: seq<int>, fromDom: seq<int>)
      requires DividerPriorityNumeric(tasks)
      modifies this`tasks
      ensures tasks == Dropped(old(tasks), taskId, toOption, fromOption, toDom, fromDom)
    {
      var newAssignedTo := OrNull(toOption);
      var oldAssignedTo := OrNull(fromOption);
      DroppedShape(tasks, taskId, toOption, fromOption, toDom, fromDom);
      var found := FindIndex(tasks, taskId);
      if found.Some? && taskId != BACKLOG_MARKER_ID {
        tasks := tasks[found.value := tasks[found.value].(assignedTo := newAssignedTo)];
      }
      RebalanceGroupPrioritiesForDomOrder(toDom);
      if newAssignedTo != oldAssignedTo {
        RebalanceGroupPrioritiesForDomOrder(fromDom);
      }
    }

    // -------------------------------------------------------------------
    // Milestones
    // -------------------------------------------------------------------

    /** `deleteMilestone(id)`, with the answer to the confirmation dialog as `confirmed`. */
    method DeleteMilestone(id: int, confirmed: bool) returns (outcome: DeleteOutcome)
      modifies this`milestones
      ensures (outcome, milestones) == Milestones.DeleteMilestone(old(milestones), tasks, id, confirmed)
    {
      var found := FindMilestone(milestones, id);
      var inUse := exists k :: 0 <= k < |tasks| && LinkedTo(tasks[k], id);
      if found.None? {
        return NotFound;
      }
      if inUse {
        return RefusedInUse;
      }
      if !confirmed {
        return Declined;
      }
      var i := found.value;
      milestones := milestones[..i] + milestones[i + 1..];
      outcome := Deleted;
    }

    /**
     * `deleteMilestoneWhenAllComplete(msId)`: every linked task takes the
     * milestone's date as its own due date and is unlinked, then the
     * milestone goes through `deleteMilestone`.
     */
    method DeleteMilestoneWhenAllComplete(msId: int, confirmed: bool)
      modifies this`tasks, this`milestones
      ensures (milestones, tasks) == DeleteWhenAllComplete(old(milestones), old(tasks), msId, confirmed)
    {
      var ms := MilestoneMapLookup(milestones, msId);
      if ms.None? {
        return;
      }
      ghost var orig := tasks;
      var date := ms.value.date;
      var k := 0;
      while k < |tasks|
        invariant 0 <= k <= |tasks| && |tasks| == |orig| && milestones == old(milestones)
        invariant forall j :: 0 <= j < k ==> tasks[j] == Unlink(orig[j], msId, date)
        invariant forall j :: k <= j < |tasks| ==> tasks[j] == orig[j]
      {
        if LinkedTo(tasks[k], msId) {
          tasks := tasks[k := tasks[k].(due := date, milestoneId := None)];
        }
        k := k + 1;
      }
      assert tasks == Cascaded(orig, msId, date);
      var _ := DeleteMilestone(msId, confirmed);
    }

    /** The milestone delete button: `data-mode` "all-complete" cascades, anything else is a plain delete. */
    method OnDeleteMilestoneClick(msId: int, mode: string, confirmed: bool)
      modifies this`tasks, this`milestones
      ensures mode == "all-complete" ==>
        (milestones, tasks) == DeleteWhenAllComplete(old(milestones), old(tasks), msId, confirmed)
      ensures mode != "all-complete" ==>
        tasks == old(tasks) && milestones == Milestones.DeleteMilestone(old(milestones), tasks, msId, confirmed).1
    {
      if mode == "all-complete" {
        DeleteMilestoneWhenAllComplete(msId, confirmed);
      } else {
        var _ := DeleteMilestone(msId, confirmed);
      }
    }

    // -------------------------------------------------------------------
    // Allocation options
    // -------------------------------------------------------------------

    /** `upgradeAllocationOptionsInPlace`: every bare name becomes `{name, type: ""}`. */
    method UpgradeAllocationOptionsInPlace()
      modifies this`allocationOptions
      ensures allocationOptions == Upgraded(old(allocationOptions))
    {
      ghost var orig := allocationOptions;
      for i := 0 to |allocationOptions|
        invariant |allocationOptions| == |orig|
        invariant forall j :: 0 <= j < i ==> allocationOptions[j] == UpgradeEntry(orig[j])
        invariant forall j :: i <= j < |orig| ==> allocationOptions[j] == orig[j]
      {
        if allocationOptions[i].Bare? {
          allocationOptions := allocationOptions[i := Entry(Some(allocationOptions[i].value), Some(""))];
        }
      }
    }

    /** `removeAllocationByName` (current version): drop the first entry whose name matches. */
    method RemoveAllocationByName(name: string)
      modifies this`allocationOptions
      ensures allocationOptions == RemovedByName(old(allocationOptions), name)
    {
      var idx := FindAllocation(allocationOptions, name);
      if idx.Some? {
        RemovedByNameFirstOnly(allocationOptions, name, idx.value);
        allocationOptions := allocationOptions[..idx.value] + allocationOptions[idx.value + 1..];
      }
    }

    /** `removeAllocationByName` (archived version): match on the `name` field only. */
    method RemoveAllocationByNameField(name: string)
      modifies this`allocationOptions
      ensures allocationOptions == RemovedByNameField(old(allocationOptions), name)
    {
      var idx := FindByNameField(allocationOptions, name);
      if idx.Some? {
        allocationOptions := allocationOptions[..idx.value] + allocationOptions[idx.value + 1..];
      }
    }

    /** The save button of the allocation editor. */
    method SaveAllocation(oldName: string, newNameRaw: string, newTypeRaw: string) returns (outcome: SaveOutcome)
      modifies this`allocationOptions
      ensures (outcome, allocationOptions) == Allocations.SaveAllocation(old(allocationOptions), oldName, newNameRaw, newTypeRaw)
    {
      var newName := JsTrim(newNameRaw);
      var newType := JsTrim(newTypeRaw);
      if newName == "" {
        return EmptyName;
      }
      UpgradeAllocationOptionsInPlace();
      if newName != oldName && Allocations.HasAllocationName(allocationOptions, newName) {
        return DuplicateName;
      }
      var idx := FindAllocation(allocationOptions, oldName);
      if idx.None? {
        return UnknownName;
      }
      allocationOptions := allocationOptions[idx.value := Entry(Some(newName), Some(newType))];
      outcome := Saved;
    }
  }
}
