/**
 * Milestones and their links from tasks: the `milestoneMap` lookup, which
 * delete button a milestone is offered, the "all complete" cascade that
 * turns linked tasks into directly dated ones, and `deleteMilestone`.
 */
module Milestones {
  import opened Wrappers
  import opened Tasks

  /** `milestoneMap[id]`: built with `Object.fromEntries`, so the LAST milestone with an id wins. */
  function MilestoneMapLookup(milestones: seq<Milestone>, id: int): (r: Option<Milestone>)
    ensures r.None? <==> forall k :: 0 <= k < |milestones| ==> milestones[k].id != id
    ensures r.Some? ==> exists k :: 0 <= k < |milestones| && milestones[k] == r.value && r.value.id == id
                         && forall j :: k < j < |milestones| ==> milestones[j].id != id
  {
    if milestones == [] then None
    else
      var last := milestones[|milestones| - 1];
      var init := milestones[..|milestones| - 1];
      assert milestones == init + [last];
      if last.id == id then Some(last) else MilestoneMapLookup(init, id)
  }

  /** `milestones.find(m => m.id === id)`, as a position: the FIRST milestone with the id. */
  function FindMilestone(milestones: seq<Milestone>, id: int): (r: Option<nat>)
    ensures r.Some? ==> r.value < |milestones| && milestones[r.value].id == id
    ensures r.Some? ==> forall j :: 0 <= j < r.value ==> milestones[j].id != id
    ensures r.None? <==> forall k :: 0 <= k < |milestones| ==> milestones[k].id != id
  {
    if milestones == [] then None
    else if milestones[0].id == id then Some(0)
    else match FindMilestone(milestones[1..], id)
      case None => None
      case Some(i) => Some(i + 1)
  }

  /** `t.milestoneId === msId`. */
  predicate LinkedTo(t: Task, msId: int) {
    t.milestoneId == Some(msId)
  }

  /** `tasks.filter(t => t.milestoneId === ms.id)`. */
  function Linked(tasks: seq<Task>, msId: int): (r: seq<Task>)
    ensures forall t :: t in r <==> t in tasks && LinkedTo(t, msId)
  {
    if tasks == [] then []
    else (if LinkedTo(tasks[0], msId) then [tasks[0]] else []) + Linked(tasks[1..], msId)
  }

  /** `tasks.some(t => t.milestoneId === milestoneId)`. */
  predicate InUse(tasks: seq<Task>, msId: int) {
    exists k :: 0 <= k < |tasks| && LinkedTo(tasks[k], msId)
  }

  /** The two reasons a delete button is shown, the `data-mode` of the button. */
  datatype DeleteMode = Unused | AllComplete

  /**
   * The delete button rendered next to a milestone: "unused" when no task
   * links to it, "all-complete" when every linked task is completed, none
   * otherwise.
   */
  function OfferedDeleteMode(tasks: seq<Task>, msId: int): (r: Option<DeleteMode>)
    ensures r == Some(Unused) <==> !InUse(tasks, msId)
    ensures r == Some(AllComplete) <==>
      InUse(tasks, msId) && forall k :: 0 <= k < |tasks| && LinkedTo(tasks[k], msId) ==> tasks[k].completed
    ensures r.None? <==> exists k :: 0 <= k < |tasks| && LinkedTo(tasks[k], msId) && !tasks[k].completed
  {
    var linked := Linked(tasks, msId);
    var used := |linked| > 0;
    var allComplete := used && forall t :: t in linked ==> t.completed;
    assert used ==> linked[0] in linked;
    assert !used ==> forall k :: 0 <= k < |tasks| ==> tasks[k] !in linked;
    if !used then Some(Unused)
    else if allComplete then Some(AllComplete)
    else None
  }

  /** The cascade's rewrite of one task: a linked task takes the milestone date as its own due date. */
  function Unlink(t: Task, msId: int, date: Option<string>): Task {
    if LinkedTo(t, msId) then t.(due := date, milestoneId := None) else t
  }

  /** The linked tasks after `t.due = ms.date; t.milestoneId = null`. */
  function Cascaded(tasks: seq<Task>, msId: int, date: Option<string>): (r: seq<Task>)
    ensures |r| == |tasks| && !InUse(r, msId)
    ensures forall k :: 0 <= k < |tasks| && !LinkedTo(tasks[k], msId) ==> r[k] == tasks[k]
    ensures forall k :: 0 <= k < |tasks| && LinkedTo(tasks[k], msId) ==>
              r[k].due == date && r[k].milestoneId.None? && r[k].(due := tasks[k].due, milestoneId := tasks[k].milestoneId) == tasks[k]
  {
    seq(|tasks|, k requires 0 <= k < |tasks| => Unlink(tasks[k], msId, date))
  }

  /** What `deleteMilestone` does: nothing for an unknown id, an alert while in use, else asks. */
  datatype DeleteOutcome = NotFound | RefusedInUse | Declined | Deleted

  /**
   * `deleteMilestone(id)`, with the user's answer to the confirmation as
   * `confirmed`: only a known, unused milestone that the user confirms is
   * removed, and then only the first milestone with that id.
   */
  function DeleteMilestone(milestones: seq<Milestone>, tasks: seq<Task>, id: int, confirmed: bool): (r: (DeleteOutcome, seq<Milestone>))
    ensures r.0 == NotFound <==> forall k :: 0 <= k < |milestones| ==> milestones[k].id != id
    ensures r.0 == RefusedInUse <==> FindMilestone(milestones, id).Some? && InUse(tasks, id)
    ensures r.0 == Deleted <==> FindMilestone(milestones, id).Some? && !InUse(tasks, id) && confirmed
    ensures r.0 != Deleted ==> r.1 == milestones
    ensures r.0 == Deleted ==> |r.1| == |milestones| - 1
  {
    match FindMilestone(milestones, id)
    case None => (NotFound, milestones)
    case Some(i) =>
      if InUse(tasks, id) then (RefusedInUse, milestones)
      else if !confirmed then (Declined, milestones)
      else (Deleted, milestones[..i] + milestones[i + 1..])
  }

  /** A deletion removes exactly the first milestone with the id and keeps the rest in order. */
  lemma DeleteRemovesOnlyThatMilestone(milestones: seq<Milestone>, tasks: seq<Task>, id: int, i: nat)
    requires i < |milestones| && milestones[i].id == id
    requires forall j :: 0 <= j < i ==> milestones[j].id != id
    requires !InUse(tasks, id)
    ensures DeleteMilestone(milestones, tasks, id, true).1 == milestones[..i] + milestones[i + 1..]
  {
  }

  /**
   * `deleteMilestoneWhenAllComplete(msId)`: look the milestone up in the map
   * (nothing happens when it is unknown), unlink its tasks onto its date,
   * then run `deleteMilestone`. The unlinking stays even when the user then
   * declines the confirmation.
   */
  function DeleteWhenAllComplete(milestones: seq<Milestone>, tasks: seq<Task>, msId: int, confirmed: bool): (r: (seq<Milestone>, seq<Task>))
    ensures MilestoneMapLookup(milestones, msId).None? ==> r == (milestones, tasks)
    ensures MilestoneMapLookup(milestones, msId).Some? ==>
      r.1 == Cascaded(tasks, msId, MilestoneMapLookup(milestones, msId).value.date)
    ensures MilestoneMapLookup(milestones, msId).Some? && confirmed ==>
      r.0 == milestones[..FindMilestone(milestones, msId).value] + milestones[FindMilestone(milestones, msId).value + 1..]
    ensures !confirmed ==> r.0 == milestones
  {
    match MilestoneMapLookup(milestones, msId)
    case None => (milestones, tasks)
    case Some(ms) =>
      var unlinked := Cascaded(tasks, msId, ms.date);
      (DeleteMilestone(milestones, unlinked, msId, confirmed).1, unlinked)
  }

  /**
   * Offering the "all-complete" button is safe: the cascade then rewrites
   * completed tasks only.
   */
  lemma AllCompleteCascadeTouchesOnlyCompleted(tasks: seq<Task>, msId: int, date: Option<string>)
    requires OfferedDeleteMode(tasks, msId) == Some(AllComplete)
    ensures forall k :: 0 <= k < |tasks| && Cascaded(tasks, msId, date)[k] != tasks[k] ==> tasks[k].completed
  {
  }

  // ---------------------------------------------------------------------
  // Ordering milestones for the pickers (v1.4.3)
  // ---------------------------------------------------------------------

  /**
   * `sortMilestonesDatedFirst(a, b)`, given `parseYMD` of the two dates as
   * time values (`None` for a missing or unparsable date): undated sorts
   * last, two undated compare equal, and two dated compare by `da - db`.
   */
  function SortMilestonesDatedFirst(da: Option<int>, db: Option<int>): (r: int)
    ensures da.None? && db.None? ==> r == 0
    ensures da.None? && db.Some? ==> r > 0
    ensures da.Some? && db.None? ==> r < 0
    ensures da.Some? && db.Some? ==> (r < 0 <==> da.value < db.value) && (r == 0 <==> da.value == db.value)
  {
    if da.None? && db.None? then 0
    else if da.None? then 1
    else if db.None? then -1
    else da.value - db.value
  }

  /** Swapping the arguments flips the sign of the comparison. */
  lemma DatedFirstAntisymmetric(da: Option<int>, db: Option<int>)
    ensures SortMilestonesDatedFirst(da, db) == -SortMilestonesDatedFirst(db, da)
  {
  }

  /** The comparison is transitive, so `Array.prototype.sort` gets a consistent order. */
  lemma DatedFirstTransitive(da: Option<int>, db: Option<int>, dc: Option<int>)
    requires SortMilestonesDatedFirst(da, db) <= 0 && SortMilestonesDatedFirst(db, dc) <= 0
    ensures SortMilestonesDatedFirst(da, dc) <= 0
  {
  }

  /** Every pair of positions is in comparator order. */
  ghost predicate SortedDatedFirst(dates: seq<Option<int>>) {
    forall i, j :: 0 <= i < j < |dates| ==> SortMilestonesDatedFirst(dates[i], dates[j]) <= 0
  }

  /**
   * In a list sorted by the comparator, every dated milestone comes before
   * every undated one, and the dated ones are in date order.
   */
  lemma SortedDatedFirstShape(dates: seq<Option<int>>)
    requires SortedDatedFirst(dates)
    ensures forall i, j :: 0 <= i < j < |dates| && dates[j].Some? ==> dates[i].Some?
    ensures forall i, j :: 0 <= i < j < |dates| && dates[i].Some? && dates[j].Some? ==> dates[i].value <= dates[j].value
  {
    forall i, j | 0 <= i < j < |dates|
      ensures dates[j].Some? ==> dates[i].Some?
      ensures dates[i].Some? && dates[j].Some? ==> dates[i].value <= dates[j].value
    {
      assert SortMilestonesDatedFirst(dates[i], dates[j]) <= 0;
    }
  }
}
