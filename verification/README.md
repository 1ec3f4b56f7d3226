# Quine task dashboard: verified model of the core

This project models, in Dafny, the logic of a single-page task dashboard.
That logic has two parts: the dashboard's JavaScript, and the release
tooling around it.

The JavaScript part covers:

- **The task store.** A list of tasks, milestones and allocation options.
- **The backlog divider.** A pseudo-task with id `-1` that splits the
  visible list into "above" and "below".
- **Drag-and-drop reprioritisation.**
  - `rebalanceGroupPrioritiesForDomOrder` gives every task shown in a
    column a fresh priority, so that the priorities follow the on-screen
    order and stay on the correct side of the divider.
  - `onEnd` reassigns a dragged task and rebalances the columns involved.
- **Task creation.** New ids, and renumbering of priorities.
- **Milestone deletion.** Refused while the milestone is in use; cascades
  into completed tasks.
- **Filtering.**
- **Allocation options.**
  - Upgrading legacy string entries.
  - Lookup, removal and renaming.
  - HTML slugs.

The release tooling part covers:

- The version handling of the release script: parsing a `vX.Y.Z` tag,
  printing it, bumping it, finding the latest reachable tag, and checking
  the version stamped into the built files.
- The single-file build's test of whether a reference is a local asset.

Modules:

- **Wrappers.** `Option` and `Result`.
- **Text.** Trimming (JavaScript and Python whitespace sets), ASCII
  lower-casing, substring search, character removal.
- **Decimal.** Printing of naturals and integers, and its inverse.
- **Tasks.** The `Task` and `Milestone` records, `find` by id, and
  applying a map of new priorities.
- **Ordering.** The specification of the rebalance: the split at the
  divider, incumbents and crossers, the sort-and-reassign case, the
  minting walk, `Rebalanced`.
- **OrderingLemmas.** What the rebalance guarantees: it follows the
  screen order, it keeps each side of the divider apart, and it touches
  only the priorities of the tasks shown.
- **TaskList.** The divider injection, fresh ids, priority renumbering
  (a stable sort), and the new-task record.
- **Allocations.** The current and the archived allocation helpers, and
  the save handler.
- **Milestones.** The delete button, deletion, and the all-complete
  cascade.
- **Filters.** `matchesActiveFilters`.
- **Slugs.** `allocationSlug` and the archived `createHtmlIdFromString`.
- **Drop.** The drop handler `onEnd` as a function.
- **Dashboard.** The `Store` class. Its fields are the global arrays the
  page mutates, and its methods are the in-place operations, each proved
  against the functions above.
- **GitCommit.** `Version`, `parse_tag`, `bump`, `tag`/`plain`,
  `get_latest_reachable_tag`, `ensure_version_in_files_matches`.
- **BuildAllInOne.** `is_local_href`.

Both versions of the dashboard script are modelled. Rows citing
`dev/static/js/app.js` follow the current version. Rows citing
`archive/v1.4.3/dev/static/js/app.js` follow the archived helpers whose
behaviour differs:

- `allocationNameExists` and `removeAllocationByName` look only at the
  `name` field.
- `createHtmlIdFromString` also drops commas.

The rebalance, drop and deletion logic is the same in both.

Where a line of the source behaves differently from its own description,
the model follows the code:

- The emptiness test in `is_local_href` looks at the unstripped value.
  A blank but non-empty attribute therefore counts as local.
- The milestone filter compares `String(milestoneId)` against the
  selected values.
- `removeAllocationByName` removes only the first match.

## Model

| member | source | states |
|---|---|---|
| Text.LowerAsciiIdempotent | dev/static/js/app.js:1284-1290 | Lower-casing twice is lower-casing once. |
| Text.LeadingCount | dev/static/js/app.js:1283-1284 | The count is exactly the length of the leading run of whitespace. |
| Text.TrailingCount | dev/static/js/app.js:1283-1284 | The count is exactly the length of the trailing run of whitespace. |
| Text.StripBy | 3_git_commit.py:93 | A stripped string is no longer than its input and neither starts nor ends with whitespace. |
| Text.StripCut | 3_git_commit.py:93 | The stripped string is the contiguous slice left after the leading whitespace, and everything after it is whitespace. |
| Text.StripKeepsTrimmed | 2_build_all_in_one.py:20 | Stripping leaves a string that already has no whitespace at either end unchanged. |
| Text.StripEmptyIff | 2_build_all_in_one.py:18-21 | A string strips to empty exactly when every character is whitespace. |
| Text.StripPadded | 3_git_commit.py:93 | Stripping removes exactly the whitespace padding around a trimmed core. |
| Text.ContainsIff | dev/static/js/app.js:1285-1293 | The left-to-right search succeeds exactly when the needle occurs at some offset. |
| Text.RemoveChar | dev/static/js/app.js:37-39 | After deleting a character it no longer occurs, every other character is kept, and the string does not grow. |
| Text.RemoveCharAbsent | archive/v1.4.3/dev/static/js/app.js:22-25 | Deleting a character that does not occur changes nothing. |
| Text.RemoveCharCommutes | archive/v1.4.3/dev/static/js/app.js:21-25 | The chain of `replaceAll(c, "")` calls may be taken in any order. |
| Text.RemoveCharAppend | archive/v1.4.3/dev/static/js/app.js:21-25 | Deleting a character distributes over concatenation. |
| Text.JsTrim | dev/static/js/app.js:1283-1284 | `s.trim()` over JavaScript's whitespace set. Its meaning is `Text.StripBy`, `Text.StripCut` and `Text.StripEmptyIff`: a contiguous slice with no whitespace at either end, cutting only whitespace, empty exactly for all-whitespace input. |
| Text.PyStrip | 3_git_commit.py:93 | `s.strip()` over Python's `str.isspace` set, with the same meaning through `Text.StripBy` and `Text.StripCut`. `Text.StripPadded` shows that it removes exactly the whitespace padding around a trimmed core. |
| Text.LowerAscii | dev/static/js/app.js:1284-1290 | Position-wise ASCII lower-casing. `Text.LowerAsciiIdempotent` and `Slugs.LoweredShape` state its meaning: idempotent, and leaving no upper-case ASCII letter. |
| Decimal.NatToString | 3_git_commit.py:114 | A printed natural is a non-empty run of digits with no leading zero unless it is 0. |
| Decimal.IntToString | dev/static/js/app.js:1275-1280 | A printed integer is non-empty, and it starts with a digit exactly when it is not negative. |
| Decimal.NatToStringRoundTrip | 3_git_commit.py:97-99 | Printing yields a canonical numeral, and reading that numeral gives back the number. |
| Decimal.LeadingNonZeroPositive | 3_git_commit.py:24 | A numeral whose first digit is not 0 denotes at least 1. |
| Decimal.CanonicalRoundTrip | 3_git_commit.py:24 | Every canonical numeral `0\|[1-9]\d*` is the printed form of its own value. |
| Decimal.NatToStringHasNoDot | 3_git_commit.py:114 | A printed natural holds no dot, so it is one piece of a dotted version. |
| Tasks.FindIndex | dev/static/js/app.js:563 | `tasks.find` by id gives the first task with that id, and none exactly when no task has it. |
| Tasks.FindIndexOfFirst | dev/static/js/app.js:695 | Every first occurrence of an id is what the search returns. |
| Tasks.FindIndexSameIds | dev/static/js/app.js:639-643 | Lists with the same ids in the same positions give the same search results. |
| Tasks.SetPriority | dev/static/js/app.js:639-643 | Writing a priority keeps every id in place. |
| Tasks.Apply | dev/static/js/app.js:639-643 | Applying a map of new priorities keeps every id in place. |
| Tasks.ApplyUpdate | dev/static/js/app.js:639-643 | Applying a map with one more entry is applying the map and then writing that entry. |
| Tasks.ApplyEmpty | dev/static/js/app.js:639-643 | Applying an empty map changes nothing. |
| Tasks.ApplyPriorityOf | dev/static/js/app.js:639-643 | After applying, an id's priority is its mapped value if the map and the store hold it, otherwise its old priority. |
| Tasks.ApplyOnlyPriorities | dev/static/js/app.js:639-643 | Applying changes no field other than `priority`. |
| Tasks.ApplyLeavesOthers | dev/static/js/app.js:639-643 | Tasks whose id is not in the map are unchanged. |
| Tasks.ApplyTwice | dev/static/js/app.js:647-648 | Two applications, over keys drawn from one list, change only priorities, only of those keys, and no lookup of any other id. |
| Ordering.WithoutDividers | dev/static/js/app.js:524-535 | Removing dividers leaves no divider, and keeps every other id exactly. |
| Ordering.WithoutDividersAppend | dev/static/js/app.js:524-535 | Divider removal distributes over concatenation. |
| Ordering.WithoutDividersNone | dev/static/js/app.js:524-535 | A list without dividers is unchanged. |
| Ordering.FirstDivider | dev/static/js/app.js:524-535 | Finds the first divider position, and none exactly when there is no divider. |
| Ordering.SplitAtDivider | dev/static/js/app.js:524-535 | The ids above are the prefix before the first divider. Above followed by below is the order with dividers removed, and neither half holds a divider. |
| Ordering.SplitAtFirstDivider | dev/static/js/app.js:524-535 | With the first divider at `i`, the ids above are exactly `dom[..i]`. |
| Ordering.SplitWithoutDivider | dev/static/js/app.js:524-535 | Without a divider, every id is above and none is below. |
| Ordering.SplitAtDividerSome | dev/static/js/app.js:524-535 | The prefix before the first divider, followed by the later ids without dividers, is the whole order without dividers. |
| Ordering.ValuesOnSideAt | dev/static/js/app.js:596-602 | Any one value of a map that lies on the segment's side lies on that side. |
| Ordering.Incumbents | dev/static/js/app.js:569-572 | Incumbents are exactly the ids whose task exists with a priority already on the segment's side. If every id qualifies, the incumbents are the ids. |
| Ordering.Crossers | dev/static/js/app.js:573 | Crossers are exactly the ids that are not incumbents, and there are none exactly when every id is an incumbent. |
| Ordering.PriorityValues | dev/static/js/app.js:579-580 | One priority per id, in order, each the priority of that id's task. |
| Ordering.ConsSorted | dev/static/js/app.js:579-581 | A value no larger than every element can be put at the front of a sorted list. |
| Ordering.Pivot | dev/static/js/app.js:544-545 | The divider's priority, or `Number.MAX_SAFE_INTEGER` when there is no divider. `OrderingLemmas.RebalanceTouchesOnlyShownPriorities` shows that a rebalance does not move it. |
| Ordering.MintFrom | dev/static/js/app.js:604-637 | The walk over the crossers. `OrderingLemmas.MintFromFacts` states that it adds exactly the remaining ids, keeps every value already present, and stays on side. `OrderingLemmas.MintFromOrdered` states that it ends strictly increasing along the order. |
| Ordering.SegmentMap | dev/static/js/app.js:557-645 | `assignSegment`'s priorities. `OrderingLemmas.SegmentMapKeys` (exactly the segment's ids), `SegmentMapOnSide`, `PureReorder`, `IncumbentsKeepPriority` and `SegmentOrderIffReady` state its meaning. |
| Ordering.AssignedSegment | dev/static/js/app.js:557-645 | The store after one `assignSegment`. `Tasks.ApplyPriorityOf` and `Tasks.ApplyOnlyPriorities` show that only the segment's priorities change, to their `SegmentMap` values. |
| Ordering.Rebalanced | dev/static/js/app.js:518-649 | The store after `rebalanceGroupPrioritiesForDomOrder`. `OrderingLemmas.RebalanceTouchesOnlyShownPriorities`, `RebalanceSeparatesAtDivider` and `RebalancedFollowsScreenOrder` state its meaning. |
| Ordering.Insert | dev/static/js/app.js:579-581 | Insertion into a sorted list is sorted and adds exactly that value. |
| Ordering.Sort | dev/static/js/app.js:579-581 | The numeric sort is ascending and a permutation of its input. |
| Ordering.ReorderMap | dev/static/js/app.js:583-586 | The first `n` ids get values drawn from the first `n` sorted priorities, and no other id gets a value. |
| Ordering.Mint | dev/static/js/app.js:613-634 | A minted number lies strictly between finite bounds. With one bound it lies past that bound, and with none it lies on the segment's side of the divider. |
| Ordering.Seed | dev/static/js/app.js:590-594 | The seed map holds exactly the incumbents, each at its current priority. |
| Ordering.PrevAnchor | dev/static/js/app.js:610 | Finds the nearest anchored position before `i`, or proves that there is none. |
| Ordering.NextAnchorFrom | dev/static/js/app.js:611 | Finds the nearest anchored position at or after `from`, or proves that there is none. |
| Ordering.NeighborPriority | dev/static/js/app.js:596-602 | A neighbour's priority lies on the segment's side when the map so far does. |
| Ordering.MintAt | dev/static/js/app.js:609-634 | The number minted for a crosser stays on the segment's side of the divider. |
| OrderingLemmas.MintFromFacts | dev/static/js/app.js:604-637 | The walk adds exactly the remaining ids, never changes a value already present, and keeps every value on the segment's side. |
| OrderingLemmas.MintBetween | dev/static/js/app.js:609-636 | A freshly minted number is above its predecessor's and below every later anchor's. |
| OrderingLemmas.MintStep | dev/static/js/app.js:604-637 | Minting one crosser preserves the walk invariant: numbered prefix, increasing values, on-side values, untouched incumbents. |
| OrderingLemmas.MintSkip | dev/static/js/app.js:607 | Passing over an incumbent preserves the walk invariant. |
| OrderingLemmas.MintDone | dev/static/js/app.js:604-637 | At the end of the walk every id is numbered, strictly increasing in screen order. |
| OrderingLemmas.MintFromOrdered | dev/static/js/app.js:604-637 | From any state satisfying the invariant, the walk ends with values strictly increasing along the order. |
| OrderingLemmas.ReorderMapAt | dev/static/js/app.js:583-586 | With distinct ids, the `k`-th id gets exactly the `k`-th value. |
| OrderingLemmas.SortOfSorted | dev/static/js/app.js:579-581 | Sorting a sorted list returns it unchanged. |
| OrderingLemmas.SeedState | dev/static/js/app.js:590-594 | The seed map establishes the invariant of the walk. |
| OrderingLemmas.SegmentMapKeys | dev/static/js/app.js:557-645 | A segment's new-priority map covers exactly its ids. |
| OrderingLemmas.SegmentMapOnSide | dev/static/js/app.js:557-645 | Every priority assigned to a segment lies on its side of the divider. |
| OrderingLemmas.IncumbentsKeepPriority | dev/static/js/app.js:590-594 | When a crosser is present, every incumbent keeps its exact priority. |
| OrderingLemmas.PureReorder | dev/static/js/app.js:575-588 | When nothing crosses, the segment's own priorities are sorted and handed out in screen order. |
| OrderingLemmas.SegmentFollowsScreenOrder | dev/static/js/app.js:557-645 | When the segment is ready, its new priorities strictly increase in screen order. Ready means: with no crosser, no two of its tasks share a priority, in whatever order they come. With a crosser, the incumbents are already in order. |
| OrderingLemmas.ReorderFollowsScreenOrder | dev/static/js/app.js:575-588 | With no crosser and no shared priority, the sort-and-reassign gives strictly increasing numbers in screen order, whatever order the tasks were in. |
| OrderingLemmas.SortDistinctStrict | dev/static/js/app.js:579-581 | Sorting values with no repeats gives a strictly increasing list. |
| OrderingLemmas.ReorderNonDecreasing | dev/static/js/app.js:575-588 | With no crosser and no condition on the old numbers, a later task never gets a smaller number than an earlier one. |
| OrderingLemmas.ReorderOfOrderedKeepsPriorities | dev/static/js/app.js:575-588 | A pure reorder of a segment already in screen order writes back every task's own number. |
| OrderingLemmas.ReorderOrderNeedsDistinct | dev/static/js/app.js:575-588 | If a pure reorder comes out strictly increasing, no two of the segment's tasks shared a priority. |
| OrderingLemmas.CrossingOrderNeedsIncreasing | dev/static/js/app.js:590-637 | If a segment with a crosser comes out strictly increasing, its incumbents were already in screen order, since they keep their numbers. |
| OrderingLemmas.SegmentOrderNeedsReady | dev/static/js/app.js:557-645 | A segment whose new priorities strictly increase in screen order was ready. |
| OrderingLemmas.SegmentOrderIffReady | dev/static/js/app.js:557-645 | A segment's new priorities strictly increase in screen order exactly when it is ready. |
| OrderingLemmas.FirstIntoEmptySegment | dev/static/js/app.js:613-634 | A task dropped into a segment with no incumbents is numbered one step from the divider (pivot − 1 above, pivot + 1 below). |
| OrderingLemmas.DistinctWithoutDividers | dev/static/js/app.js:524-535 | Removing dividers keeps the ids distinct. |
| OrderingLemmas.SplitDisjoint | dev/static/js/app.js:524-535 | With distinct ids, the two halves are distinct, disjoint and drawn from the order. |
| OrderingLemmas.IncumbentsIncreasingTransfer | dev/static/js/app.js:647-648 | The ordering precondition survives any change that keeps the segment's priorities. |
| OrderingLemmas.SegmentReadyTransfer | dev/static/js/app.js:647-648 | Readiness survives any change that keeps the segment's priorities, so the first pass does not disturb the second. |
| OrderingLemmas.RebalanceTouchesOnlyShownPriorities | dev/static/js/app.js:518-649 | The rebalance changes only priorities, only of the tasks shown, and never the divider's, so the pivot stays put. |
| OrderingLemmas.RebalancedPriorities | dev/static/js/app.js:647-648 | Ids above get the above-map's value, ids below the below-map's, and the first pass leaves the ids below alone. |
| OrderingLemmas.RebalanceSeparatesAtDivider | dev/static/js/app.js:518-649 | After the rebalance every task shown above is below the divider's priority, and every task shown below is above it. |
| OrderingLemmas.ShownInOrderConcat | dev/static/js/app.js:647-648 | Two ordered halves, the first wholly before the second, are ordered together. |
| OrderingLemmas.AboveFollowsScreenOrder | dev/static/js/app.js:647 | When the segment above the divider is ready, its ids end up in strictly increasing priority, in screen order. |
| OrderingLemmas.BelowFollowsScreenOrder | dev/static/js/app.js:648 | When the segment below the divider is ready, its ids end up in strictly increasing priority, in screen order. |
| OrderingLemmas.RebalancedFollowsScreenOrder | dev/static/js/app.js:518-649 | When both segments are ready, the whole column, dividers removed, ends up in strictly increasing priority, in screen order. |
| TaskList.WithDivider | dev/static/js/app.js:204-214 | Afterwards a divider exists. A divider is appended, at priority = old count, exactly when none existed, and nothing else changes. |
| TaskList.WithDividerIdempotent | dev/static/js/app.js:204-214 | Injecting twice is injecting once. |
| TaskList.WithDividerSingle | dev/static/js/app.js:204-214 | Injecting into a list without a divider yields exactly one divider. |
| TaskList.MaxOf | dev/static/js/app.js:874 | The maximum belongs to the list and bounds it. |
| TaskList.NextId | dev/static/js/app.js:866-876 | The next id exceeds every id. It is 1 on an empty list, otherwise max + 1. |
| TaskList.IdsOf | dev/static/js/app.js:868-874 | `xs.map(x => x.id)` for tasks and milestones alike: one id per record, position by position. |
| TaskList.NextTaskIdFresh | dev/static/js/app.js:872-876 | The generated task id is fresh. |
| TaskList.NumericFrom | dev/static/js/app.js:880 | Exactly the positions from `from` holding a numeric priority, increasing. |
| TaskList.NumericPositions | dev/static/js/app.js:880 | Exactly the positions holding a numeric priority, increasing. |
| TaskList.InsertPosition | dev/static/js/app.js:883 | Insertion keeps the stable priority order and adds exactly one position. |
| TaskList.SortPositions | dev/static/js/app.js:883 | The stable sort by priority is a permutation of its input, ordered by priority with ties in list order. |
| TaskList.Renumbered | dev/static/js/app.js:878-892 | Renumbering keeps the list's length. |
| TaskList.DistinctCard | dev/static/js/app.js:882-889 | A duplicate-free list has as many elements as its set. |
| TaskList.SubsetCard | dev/static/js/app.js:882-889 | A subset is no larger. |
| TaskList.RankOfSorted | dev/static/js/app.js:882-889 | In the sorted order the `i`-th position has rank `i`: exactly `i` numeric tasks come before it. |
| TaskList.SortedOrderIsRank | dev/static/js/app.js:882-889 | The priority written at index `i` of the sorted order is that task's rank. |
| TaskList.RenumberedIsBijection | dev/static/js/app.js:880-891 | Numeric tasks get distinct ranks in 0..n−1, where n is the returned next priority. |
| TaskList.RenumberedKeepsOrder | dev/static/js/app.js:882-889 | Renumbering keeps the relative order of the numeric tasks. |
| TaskList.RenumberedOnlyPriorities | dev/static/js/app.js:878-892 | Renumbering changes only priorities. Tasks without a numeric priority are untouched, and numeric ones stay numeric. |
| TaskList.NewTaskIsFreshAndLast | dev/static/js/app.js:1613-1652 | The added task's id is fresh, and its priority is above every renumbered priority. |
| TaskList.OrNull | dev/static/js/app.js:1622-1630 | `value \|\| null`: absent exactly for the empty string, otherwise the string itself. |
| TaskList.NewTask | dev/static/js/app.js:1630-1641 | The new record has the given id, text, milestone, allocation, category and priority, and is neither completed nor a divider. A due date is kept only without a milestone, and a kept due date is the date given. |
| Allocations.GetAllocationType | dev/static/js/app.js:19-22 | An object with a string `type` gives that type trimmed, and anything else gives "". A non-empty result has no whitespace at either end. |
| Allocations.FindAllocation | dev/static/js/app.js:28-31 | Finds the first entry with the name, and none exactly when no entry has it. |
| Allocations.HasAllocationName | dev/static/js/app.js:24-26 | True exactly when some entry has the name. |
| Allocations.RemovedByName | dev/static/js/app.js:28-31 | Nothing changes when the name is absent. Otherwise exactly one entry goes. |
| Allocations.RemovedByNameFirstOnly | dev/static/js/app.js:28-31 | Exactly the first entry with that name is spliced out. |
| Allocations.Upgraded | dev/static/js/app.js:5-12 | Every entry becomes an object with the same name, and existing objects are untouched. |
| Allocations.UpgradedIdempotent | dev/static/js/app.js:5-12 | Upgrading twice is upgrading once. |
| Allocations.UpgradedKeepsNames | dev/static/js/app.js:5-12 | Upgrading does not change which names exist. |
| Allocations.GetAllocationName | dev/static/js/app.js:14-17 | A bare string is its own name, and an object gives its string `name` or "". `Allocations.Upgraded` and `Allocations.UpgradedKeepsNames` show that the upgrade keeps every entry's name. |
| Allocations.UpgradeEntry | dev/static/js/app.js:8-10 | A bare string becomes `{name, type: ""}`, and an object stays as it is. `Allocations.Upgraded` and `Allocations.UpgradedIdempotent` state its meaning. |
| Allocations.FindByNameField | archive/v1.4.3/dev/static/js/app.js:104-107 | Finds the first object whose `name` field is the name, and none exactly when there is none. |
| Allocations.AllocationNameExists | archive/v1.4.3/dev/static/js/app.js:99-101 | True exactly when some object's `name` field is the name. |
| Allocations.RemovedByNameField | archive/v1.4.3/dev/static/js/app.js:104-107 | Nothing changes when the name is absent. Otherwise exactly one entry goes. |
| Allocations.VersionsAgreeAfterUpgrade | archive/v1.4.3/dev/static/js/app.js:99-107 | After the upgrade, the archived name-field helpers agree with the current helpers for every non-empty name. |
| Allocations.HelpersAgree | archive/v1.4.3/dev/static/js/app.js:99-107 | On a list of objects, the archived and current exists/remove helpers agree. |
| Allocations.FindsAgree | archive/v1.4.3/dev/static/js/app.js:104-107 | On a list of objects, both searches return the same position. |
| Allocations.SaveAllocation | dev/static/js/app.js:1776-1809 | An empty trimmed name is refused with nothing changed. A rename onto another existing name is refused, and an unknown old name is reported exactly when neither of those applies. Both leave the upgraded list. On success the upgraded list has the trimmed name and trimmed type written at the old name's first position, and nothing else changes. |
| Allocations.RenamedEntry | dev/static/js/app.js:1798-1799 | Renaming one object keeps all entries objects and makes the new name present. |
| Milestones.MilestoneMapLookup | dev/static/js/app.js:266-268 | `milestoneMap[id]` is the last milestone with that id, and none exactly when there is none. |
| Milestones.FindMilestone | dev/static/js/app.js:932-946 | `findIndex` gives the first milestone with that id, and none exactly when there is none. |
| Milestones.Linked | dev/static/js/app.js:132 | Exactly the tasks linked to the milestone. |
| Milestones.OfferedDeleteMode | dev/static/js/app.js:132-149 | "unused" exactly when no task links to the milestone. "all-complete" exactly when some do and all are completed. No button otherwise. |
| Milestones.Cascaded | dev/static/js/app.js:180-200 | Afterwards nothing links to the milestone. Linked tasks take its date and lose the link, with no other change, and other tasks are untouched. |
| Milestones.Unlink | dev/static/js/app.js:185-190 | One task of the cascade: a linked task takes the milestone date and loses its link. `Milestones.Cascaded` states this for the whole list, and that other tasks are untouched. |
| Milestones.DeleteMilestone | dev/static/js/app.js:932-946 | An unknown id is reported, and an id in use is refused. Deletion happens exactly for a known, unused, confirmed id, and removes one milestone. Otherwise nothing changes. |
| Milestones.DeleteRemovesOnlyThatMilestone | dev/static/js/app.js:932-946 | A confirmed delete splices out exactly the first milestone with the id. |
| Milestones.DeleteWhenAllComplete | dev/static/js/app.js:180-200 | An unknown milestone changes nothing. Otherwise the tasks are cascaded before the question, and the milestone is removed only if confirmed. |
| Milestones.AllCompleteCascadeTouchesOnlyCompleted | dev/static/js/app.js:139-148 | When the all-complete button is offered, the cascade changes only completed tasks. |
| Milestones.SortMilestonesDatedFirst | archive/v1.4.3/dev/static/js/app.js:110-118 | Two undated milestones compare equal. An undated one sorts after a dated one, and two dated ones compare by their dates. |
| Milestones.DatedFirstAntisymmetric | archive/v1.4.3/dev/static/js/app.js:110-118 | Swapping the two milestones flips the sign of the comparison. |
| Milestones.DatedFirstTransitive | archive/v1.4.3/dev/static/js/app.js:110-118 | The comparison is transitive. |
| Milestones.SortedDatedFirstShape | archive/v1.4.3/dev/static/js/app.js:609 | A list in comparator order has every dated milestone before every undated one, and the dated ones in date order. |
| Filters.MatchesActiveFilters | dev/static/js/app.js:1266-1297 | True exactly for the divider, or for a task passing the category, milestone and text groups. |
| Filters.DividerAlwaysMatches | dev/static/js/app.js:1267 | The divider passes every filter. |
| Filters.NoActiveFilterMatchesAll | dev/static/js/app.js:1266-1297 | With no category, no milestone and a blank search, every task passes. |
| Filters.CategoryFilterOnly | dev/static/js/app.js:1270-1272 | With only categories selected, a task passes exactly when its non-empty category is selected. |
| Filters.SelectedMilestoneAccepts | dev/static/js/app.js:1275-1280 | A task whose milestone id is selected, by its decimal text, passes the milestone group. |
| Filters.CategoryAccepts | dev/static/js/app.js:1269-1272 | The category group. `Filters.CategoryFilterOnly` states it: with categories selected, a task passes exactly when its non-empty category is selected. |
| Filters.MilestoneAccepts | dev/static/js/app.js:1274-1280 | The milestone group. `Filters.SelectedMilestoneAccepts` states that a selected milestone id passes, and `Filters.MatchesActiveFilters` joins the groups. |
| Filters.TextAccepts | dev/static/js/app.js:1282-1294 | The text group: a blank search, or the trimmed, lower-cased search occurs in the task text or its milestone's name. `Text.ContainsIff` gives `includes` that meaning. |
| Slugs.LoweredShape | dev/static/js/app.js:35-36 | After lower-casing and replacing spaces, no space or upper-case letter is left. |
| Slugs.AllocationSlug | dev/static/js/app.js:33-40 | The slug has no space, parenthesis, colon or upper-case letter, and is no longer than the name. `Slugs.AllocationSlugIsSlugOf` pins it down character by character. |
| Slugs.CreateHtmlIdFromString | archive/v1.4.3/dev/static/js/app.js:18-26 | The id has the slug shape and no comma. `Slugs.HtmlIdIsSlugOf` pins it down character by character. |
| Slugs.AllocationSlugIdempotent | dev/static/js/app.js:33-40 | Slugging a slug changes nothing. |
| Slugs.HtmlIdIsSlugWithoutCommas | archive/v1.4.3/dev/static/js/app.js:18-26 | The archived id is the current slug with its commas removed. |
| Slugs.AllocationSlugAppend | dev/static/js/app.js:33-40 | The slug of a concatenation is the concatenation of the slugs. |
| Slugs.HtmlIdAppend | archive/v1.4.3/dev/static/js/app.js:18-26 | The archived id of a concatenation is the concatenation of the ids. |
| Slugs.AllocationSlugOfChar | dev/static/js/app.js:33-40 | The slug of one character: parentheses and colons vanish, a space becomes `-`, and any other character is lower-cased. |
| Slugs.AllocationSlugIsSlugOf | dev/static/js/app.js:33-40 | The slug maps each character of the name in turn: parentheses and colons dropped, spaces to `-`, letters lower-cased, survivors kept in order. |
| Slugs.HtmlIdIsSlugOf | archive/v1.4.3/dev/static/js/app.js:18-26 | The archived id does the same, and also drops commas. |
| Slugs.AllocationSlugOfPlainName | dev/static/js/app.js:33-40 | For a name with no parenthesis or colon, the slug has the name's length, with `-` where the name has a space and the lower-cased character elsewhere. |
| Drop.AssignDragged | dev/static/js/app.js:691-700 | Only the dragged (non-divider) task's `assignedTo` changes, and it changes to the destination. |
| Drop.AssignDraggedKeepsPriorities | dev/static/js/app.js:691-700 | Reassignment changes no priority. |
| Drop.RebalanceOnlyPriorities | dev/static/js/app.js:703-708 | A rebalance changes only priorities, and keeps the divider's. |
| Drop.DroppedAfterTo | dev/static/js/app.js:703-708 | The second rebalance changes only priorities of the result of the first. |
| Drop.OnlyPrioritiesDifferTrans | dev/static/js/app.js:703-708 | Changing only priorities composes. |
| Drop.ReassignedThenRepriced | dev/static/js/app.js:691-708 | Reassigning and then repricing changes only the dragged task's allocation and priorities. |
| Drop.DropReassigns | dev/static/js/app.js:684-711 | After a drop, the dragged task belongs to the destination column. No other allocation and no other field changes, and the divider's priority is kept. |
| Drop.SecondRebalanceKeeps | dev/static/js/app.js:706-708 | Rebalancing the source column leaves every task not shown there alone. |
| Drop.DestinationInOrder | dev/static/js/app.js:703-705 | When both destination segments are ready, the destination column ends up in screen order after its rebalance. |
| Drop.ShownInOrderTransfer | dev/static/js/app.js:706-708 | Screen order survives any change that keeps the shown tasks' priorities. |
| Drop.DropLandsWhereDropped | dev/static/js/app.js:684-711 | When both destination segments are ready (no shared priority in a pure reorder, incumbents in order when something crosses), the destination column's tasks, the dropped one included, end up with strictly increasing priorities in the order shown. |
| Drop.Dropped | dev/static/js/app.js:684-711 | `onEnd` as a function: reassign, rebalance the destination, then rebalance the source when it is a different bucket. `Drop.DropReassigns` and `Drop.DropLandsWhereDropped` state its meaning. |
| Drop.SourceRebalanceKeepsDestination | dev/static/js/app.js:706-708 | Rebalancing a disjoint source column keeps the destination in order. |
| Drop.DroppedShape | dev/static/js/app.js:703-708 | The source column is rebalanced only when it differs from the destination. |
| Dashboard.SplitStep | dev/static/js/app.js:524-535 | One step of the split loop keeps its invariant. |
| Dashboard.SplitDone | dev/static/js/app.js:524-535 | When the split loop ends, its halves are the specified split. |
| Dashboard.SplitDom | dev/static/js/app.js:524-535 | The loop computes exactly the split at the first divider. |
| Dashboard.RenumberStep | dev/static/js/app.js:882-889 | One renumbering step keeps its invariant. |
| Dashboard.RenumberDone | dev/static/js/app.js:882-889 | When the loop ends, the list is the renumbered list. |
| Dashboard.WrittenIsApply | dev/static/js/app.js:583-586 | Writing sorted priorities in screen order is applying the reorder map. |
| Dashboard.Store.constructor | dev/static/js/app.js:1443-1445 | The fields stand for the page's global `allocationOptions`, `milestones` and `tasks`, which the saved page declares as constants. The store starts with the values given. |
| Dashboard.Store.GenerateUniqueTaskId | dev/static/js/app.js:872-876 | The task id is above every task id. It is 1 for no tasks, otherwise max + 1. |
| Dashboard.Store.GenerateUniqueMilestoneId | dev/static/js/app.js:866-870 | The milestone id is above every milestone id. It is 1 for none, otherwise max + 1. |
| Dashboard.Store.InjectBacklogDivider | dev/static/js/app.js:204-214 | The task array becomes the specified divider injection. |
| Dashboard.Store.NormalizeAndGetNextPriority | dev/static/js/app.js:878-892 | The task array becomes its renumbering, and the result is the count of numeric tasks. |
| Dashboard.Store.AddTask | dev/static/js/app.js:1613-1652 | A blank name adds nothing. Otherwise the tasks are renumbered and the new task is appended with a fresh id and the next priority. |
| Dashboard.Store.AssignSegment | dev/static/js/app.js:557-645 | The task array becomes the specified segment assignment. |
| Dashboard.Store.WriteInScreenOrder | dev/static/js/app.js:583-586 | The loop writes the sorted priorities in screen order, as the reorder map does. |
| Dashboard.Store.SeedIncumbents | dev/static/js/app.js:590-594 | The seed holds exactly the incumbents at their current priorities. |
| Dashboard.Store.MintCrossers | dev/static/js/app.js:604-637 | The loop computes exactly the minting walk. |
| Dashboard.Store.ApplyPriorities | dev/static/js/app.js:639-643 | The loop writes every mapped priority. |
| Dashboard.Store.RebalanceGroupPrioritiesForDomOrder | dev/static/js/app.js:518-649 | The task array becomes the specified rebalance of the on-screen order. |
| Dashboard.Store.OnEnd | dev/static/js/app.js:684-711 | The task array becomes the specified drop. |
| Dashboard.Store.DeleteMilestone | dev/static/js/app.js:932-946 | Outcome and milestones are the specified deletion. |
| Dashboard.Store.DeleteMilestoneWhenAllComplete | dev/static/js/app.js:180-200 | Milestones and tasks are the specified cascade. |
| Dashboard.Store.OnDeleteMilestoneClick | dev/static/js/app.js:1813-1823 | The "all-complete" mode runs the cascade. Any other mode runs the plain delete and leaves the tasks alone. |
| Dashboard.Store.UpgradeAllocationOptionsInPlace | dev/static/js/app.js:5-12 | The options become their upgrade. |
| Dashboard.Store.RemoveAllocationByName | dev/static/js/app.js:28-31 | The options lose the first entry with the name. |
| Dashboard.Store.RemoveAllocationByNameField | archive/v1.4.3/dev/static/js/app.js:104-107 | The options lose the first object with the name field. |
| Dashboard.Store.SaveAllocation | dev/static/js/app.js:1776-1809 | Outcome and options are the specified save. |
| GitCommit.Plain | 3_git_commit.py:117-118 | The plain form starts and ends with a digit and never holds a `v`. |
| GitCommit.Tag | 3_git_commit.py:113-115 | The tag starts with `v` exactly when `prefix_v` holds, and is otherwise the plain form. |
| GitCommit.SplitDots | 3_git_commit.py:24 | Splitting at dots gives at least one piece, and no piece holds a dot. |
| GitCommit.JoinSplitDots | 3_git_commit.py:24 | Joining the pieces with dots gives the string back. |
| GitCommit.SplitDotsCons | 3_git_commit.py:24 | A dot-free head followed by a dot splits off as the first piece. |
| GitCommit.SplitDotsNoDot | 3_git_commit.py:24 | A dot-free string is a single piece. |
| GitCommit.ParseStripped | 3_git_commit.py:91-101 | A parsed version has `prefix_v` exactly when the tag starts with `v`. |
| GitCommit.TagIsStripped | 3_git_commit.py:113-115 | A printed tag strips to itself. |
| GitCommit.TagTrimmed | 3_git_commit.py:113-115 | A printed tag is non-empty with no whitespace at its ends. |
| GitCommit.SplitPlain | 3_git_commit.py:117-118 | The plain form splits back into the three printed numbers. |
| GitCommit.ParseTagRoundTrip | 3_git_commit.py:91-115 | `parse_tag(v.tag()) == v` for every version. |
| GitCommit.ParseTagOnlyCanonical | 3_git_commit.py:91-115 | Any accepted tag, once stripped, is exactly the tag of the version it parses to. |
| GitCommit.ThreePieces | 3_git_commit.py:24 | A string splitting into three pieces is those pieces joined by dots. |
| GitCommit.PlainOfCanonical | 3_git_commit.py:24 | Canonical numerals print back exactly. |
| GitCommit.ParseStrippedOnlyCanonical | 3_git_commit.py:91-101 | Any accepted stripped string is exactly the tag of its version. |
| GitCommit.TagFromPlain | 3_git_commit.py:113-115 | A tag is its plain form behind the `v` it says it has. |
| GitCommit.ParseTagAcceptsSemver | 3_git_commit.py:24 | Every string in the pattern's language is accepted, whatever whitespace surrounds it, with the numbers its digits denote. |
| GitCommit.BumpLevelOf | 3_git_commit.py:104-110 | Each level is chosen exactly by its name or its digit, after lower-casing and stripping. |
| GitCommit.Bump | 3_git_commit.py:103-111 | An unknown level is the error "Invalid bump level". Otherwise the result keeps the prefix, is strictly greater, and resets the lower fields. |
| GitCommit.PromptAnswersAreLevels | 3_git_commit.py:182-191 | Every answer the prompt accepts is a valid bump level. |
| GitCommit.NormalizedWord | 3_git_commit.py:104 | Lower-casing and stripping leave a lower-case word alone. |
| GitCommit.BumpedTagParses | 3_git_commit.py:103-115 | The tag of a bumped version parses back to it and keeps the `v` choice. |
| GitCommit.BlankDoesNotParse | 3_git_commit.py:91-95 | The empty tag is rejected. |
| GitCommit.ParseTag | 3_git_commit.py:91-101 | `Version.parse_tag`. `GitCommit.ParseTagRoundTrip`, `ParseTagOnlyCanonical`, `ParseTagAcceptsSemver` and `BlankDoesNotParse` state its meaning: it inverts `tag()`, accepts exactly the pattern's language, and rejects the blank tag. |
| GitCommit.LineTag | 3_git_commit.py:167-170 | A line yields its stripped text and version exactly when that text parses. |
| GitCommit.FirstSome | 3_git_commit.py:167-170 | The first present value is one of the values. |
| GitCommit.FirstSomeAt | 3_git_commit.py:167-170 | The first present value is the one at the earliest present index. |
| GitCommit.FirstSomeNone | 3_git_commit.py:167-170 | There is none exactly when every value is absent. |
| GitCommit.FirstSomeStep | 3_git_commit.py:167-170 | One step of the left-to-right scan. |
| GitCommit.LineTags | 3_git_commit.py:167-170 | One result per line. |
| GitCommit.FirstParsable | 3_git_commit.py:167-170 | A found tag is stripped and parses to the version returned. |
| GitCommit.FirstParsableAt | 3_git_commit.py:167-170 | The earliest line that parses is the one chosen. |
| GitCommit.FirstParsableNone | 3_git_commit.py:167-170 | Nothing is found exactly when no line parses. |
| GitCommit.FirstParsableTag | 3_git_commit.py:167-170 | The loop returns the first parsable line. |
| GitCommit.GetLatestReachableTag | 3_git_commit.py:138-179 | A parsable `describe` answer wins, and otherwise the first parsable listed tag. Any result is a canonical tag of its version. |
| GitCommit.ClassifyFile | 3_git_commit.py:48-71 | No problem exactly when the file exists with the one expected version. Not-found, no-version and multiple-versions are reported in exactly their cases. |
| GitCommit.ProblemsOf | 3_git_commit.py:48-71 | At most one problem per file, and none exactly when every file matches. |
| GitCommit.ProblemsStep | 3_git_commit.py:48-71 | One file's problem comes before the rest's, in order. |
| GitCommit.EnsureVersionInFilesMatches | 3_git_commit.py:40-80 | The loop collects the files' problems in order. The exit code is 8 exactly when some file does not match. |
| BuildAllInOne.IsRemoteCases | 2_build_all_in_one.py:21 | "Remote" is one of the four prefixes. |
| BuildAllInOne.IsLocalHref | 2_build_all_in_one.py:17-21 | A missing or empty value is not local. Otherwise the value is local exactly when its stripped form lacks a remote prefix. |
| BuildAllInOne.PaddingIrrelevant | 2_build_all_in_one.py:20 | Surrounding whitespace does not change the answer. |
| BuildAllInOne.PrefixesTrimmed | 2_build_all_in_one.py:21 | Each remote prefix is non-empty with no whitespace at its ends. |
| BuildAllInOne.RemoteIsNotLocal | 2_build_all_in_one.py:20-21 | A remote prefix with anything after it, padded by whitespace, is not local. |
| BuildAllInOne.BlankIsLocal | 2_build_all_in_one.py:18-21 | A non-empty all-whitespace value passes the emptiness test, strips to nothing, and counts as local. |
| BuildAllInOne.RelativeIsLocal | 2_build_all_in_one.py:21 | A trimmed value not starting with `h`, `/` or `d` is local. |
| BuildAllInOne.UpperCaseSchemeIsLocal | 2_build_all_in_one.py:21 | The prefix test is case-sensitive: `HTTP://…` counts as local. |

## Left out

- The browser and the page are not modelled. This covers rendering, jQuery, Sortable, dropzones, modals, `confirm`/`alert` (their answers are parameters), local storage, save-as-HTML and clipboard export. Neither are the other UI handlers (task editing, `deleteTask`, category editing, timers).
- `onEnd` takes the destination and source columns' on-screen id lists (`toDom`, `fromDom`) as parameters instead of reading them from the DOM.
- OrderingLemmas.RebalancedFollowsScreenOrder, Drop.DestinationInOrder and Drop.DropLandsWhereDropped promise screen order only for ready segments. That is exactly the case in which the source delivers it (`OrderingLemmas.SegmentOrderIffReady`). With shared priorities in a pure reorder, the tied tasks get equal numbers (`OrderingLemmas.ReorderNonDecreasing`). With a crosser and incumbents out of order, the incumbents keep their out-of-order numbers (`OrderingLemmas.IncumbentsKeepPriority`).
- Ordering.Rebalanced requires the divider's priority, when a divider exists, to be a number. The source would compare against `NaN` or `undefined`, and that is not modelled.
- Priorities are exact reals. In the source they are IEEE doubles, and the halving in the minting walk can round onto a bound. The check at dev/static/js/app.js:626 then recomputes the midpoint as `lower + (upper - lower) / 2`, which in floating point can still equal a bound. In the model the midpoint of two reals is always strictly between them, so that recomputation never applies.
- A priority that is `null`, missing or a numeric string is "not a number" (`None`) in the model, and such a task is never an incumbent. The source's `assignSegment` reads priorities through `Number(t.priority)` (dev/static/js/app.js:564-567). There `null` becomes 0, which can count as an incumbent above the divider, and a numeric string becomes its number. This coercion is not modelled.
- Dashboard.Store.ApplyPriorities writes the entries of `newP` in an arbitrary order. The source's `newP` is a `Map` (dev/static/js/app.js:591), and `newP.forEach` (dev/static/js/app.js:640) walks it in insertion order. The result is the same, because each key is written once.
- The dead `inGroup`/`belongsAbove`/`belongsBelow` code in the rebalance is not modelled, because it has no effect on the result.
- Text.LowerAscii folds only ASCII letters. `toLowerCase` and `str.lower` fold all of Unicode. The slug, filter and bump-level lemmas hold for ASCII.
- GitCommit.ParseStripped reads ASCII digits only. Python's `\d` also matches other Unicode decimal digits.
- The two regular expressions are modelled by hand: the tag pattern at 3_git_commit.py:24 as a split at dots plus canonical numerals, and the in-file pattern at 3_git_commit.py:26 not at all. A file's versions arrive as a set parameter. The file system (`exists`, `read_text`), `git describe`/`git tag` (their outputs are parameters), `input`, `subprocess`, the prompt loop and the printing of messages are left out.
- Milestones.MilestoneMapLookup models `milestoneMap` as rebuilt from `milestones` (the last entry with an id wins). Staleness of the map between rebuilds is not modelled.
- Allocations.SaveAllocation renames only the option entry. The handler also calls `renameAllocationEverywhere`, which is not defined in the script.
- Milestones.SortMilestonesDatedFirst takes the two `parseYMD` results as parameters, as time values or `None`. Date parsing, the clock and the time zone (`parseYMD`, `new Date`) are not modelled. Neither are the other date helpers (`isPastDate`, `isSoon`), nor the `Array.prototype.sort` call that uses the comparator.
- `1_minify_assets.py`, the inlining and writing parts of `2_build_all_in_one.py`, and the sample data files are not modelled.
- Slugs.CreateHtmlIdFromString takes its argument as a string. `String(name)` of a non-string value is not modelled.
