/**
 * `matchesActiveFilters`: which tasks the board shows under the active
 * category, milestone and text filters. Groups combine with AND; inside a
 * group any selected value will do.
 */
module Filters {
  import opened Wrappers
  import opened Tasks
  import opened Text
  import opened Decimal
  import opened Milestones

  /** The pseudo-milestone value meaning "has its own due date". */
  const FILTER_DIRECT: string := "__DIRECT__"

  datatype ActiveFilters = ActiveFilters(categories: set<string>, milestones: set<string>, searchText: string)

  /** JavaScript truthiness of an optional string field. */
  predicate Present(s: Option<string>) {
    s.Some? && s.value != ""
  }

  /** JavaScript truthiness of an optional numeric id (0 is falsy). */
  predicate PresentId(m: Option<int>) {
    m.Some? && m.value != 0
  }

  /** The category group: no selection, or the task's category is selected. */
  predicate CategoryAccepts(t: Task, f: ActiveFilters) {
    f.categories == {} || (Present(t.category) && t.category.value in f.categories)
  }

  /** Directly dated: a due date of its own and no milestone. */
  predicate DirectlyDated(t: Task) {
    Present(t.due) && !PresentId(t.milestoneId)
  }

  /** The milestone group: no selection, a selected direct date, or the task's milestone selected by its decimal id. */
  predicate MilestoneAccepts(t: Task, f: ActiveFilters) {
    f.milestones == {}
    || (DirectlyDated(t) && FILTER_DIRECT in f.milestones)
    || (PresentId(t.milestoneId) && IntToString(t.milestoneId.value) in f.milestones)
  }

  /** The lower-cased name of the task's milestone in `milestoneMap`, or "". */
  function MilestoneNameOf(t: Task, milestones: seq<Milestone>): string {
    if PresentId(t.milestoneId) then
      match MilestoneMapLookup(milestones, t.milestoneId.value)
      case Some(ms) => LowerAscii(ms.name)
      case None => ""
    else ""
  }

  /** The text group: a blank search, or the trimmed lower-cased search occurs in the task text or its milestone's name. */
  ghost predicate TextAccepts(t: Task, f: ActiveFilters, milestones: seq<Milestone>) {
    var needle := LowerAscii(JsTrim(f.searchText));
    JsTrim(f.searchText) == ""
    || (exists i :: OccursAt(LowerAscii(t.text), needle, i))
    || (exists i :: OccursAt(MilestoneNameOf(t, milestones), needle, i))
  }

  /** The filter predicate, with its early returns. */
  function MatchesActiveFilters(t: Task, f: ActiveFilters, milestones: seq<Milestone>): (r: bool)
    ensures r <==> t.isBacklogDivider
                   || (CategoryAccepts(t, f) && MilestoneAccepts(t, f) && TextAccepts(t, f, milestones))
  {
    var needle := LowerAscii(JsTrim(f.searchText));
    ContainsIff(LowerAscii(t.text), needle);
    ContainsIff(MilestoneNameOf(t, milestones), needle);
    if t.isBacklogDivider then true
    else if |f.categories| > 0 && (!Present(t.category) || t.category.value !in f.categories) then false
    else if |f.milestones| > 0
            && !(DirectlyDated(t) && FILTER_DIRECT in f.milestones)
            && !(PresentId(t.milestoneId) && IntToString(t.milestoneId.value) in f.milestones) then false
    else if f.searchText != "" && JsTrim(f.searchText) != ""
            && !Contains(LowerAscii(t.text), needle)
            && !Contains(MilestoneNameOf(t, milestones), needle) then false
    else true
  }

  /** The divider is shown whatever the filters. */
  lemma DividerAlwaysMatches(t: Task, f: ActiveFilters, milestones: seq<Milestone>)
    requires t.isBacklogDivider
    ensures MatchesActiveFilters(t, f, milestones)
  {
  }

  /** With no category, no milestone and a blank (or whitespace-only) search, every task is shown. */
  lemma NoActiveFilterMatchesAll(t: Task, f: ActiveFilters, milestones: seq<Milestone>)
    requires f.categories == {} && f.milestones == {}
    requires forall i :: 0 <= i < |f.searchText| ==> IsJsWhitespace(f.searchText[i])
    ensures MatchesActiveFilters(t, f, milestones)
  {
    StripEmptyIff(f.searchText, IsJsWhitespace);
  }

  /** A task with a selected category and no other filter is shown exactly when its category is selected. */
  lemma CategoryFilterOnly(t: Task, f: ActiveFilters, milestones: seq<Milestone>)
    requires !t.isBacklogDivider && f.categories != {} && f.milestones == {} && f.searchText == ""
    ensures MatchesActiveFilters(t, f, milestones) <==> t.category.Some? && t.category.value != "" && t.category.value in f.categories
  {
  }

  /** A task linked to a selected milestone passes the milestone group whatever its own date. */
  lemma SelectedMilestoneAccepts(t: Task, f: ActiveFilters, id: int)
    requires t.milestoneId == Some(id) && id != 0 && IntToString(id) in f.milestones
    ensures MilestoneAccepts(t, f)
  {
  }
}
