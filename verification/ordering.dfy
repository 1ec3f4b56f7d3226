/**
 * The priority ordering engine of `rebalanceGroupPrioritiesForDomOrder`:
 * the on-screen id order of one bucket is split at the backlog divider and
 * each half ("segment") gets priorities so that it sorts on its own side of
 * the divider's priority (the pivot). This module holds the specification
 * functions; `Dashboard.Store` runs the same steps in place.
 */
module Ordering {
  import opened Wrappers
  import opened Tasks

  /** `Number.MAX_SAFE_INTEGER`: the pivot when the store holds no divider. */
  const MAX_SAFE_INTEGER: real := 9007199254740991.0

  /** A bound for minting: JavaScript's -Infinity, a finite number, or +Infinity. */
  datatype Bound = NegInf | Fin(v: real) | PosInf

  // ---------------------------------------------------------------------
  // Splitting the on-screen order at the divider
  // ---------------------------------------------------------------------

  /** The ids with every divider id removed, order kept. */
  function WithoutDividers(s: seq<int>): (r: seq<int>)
    ensures BACKLOG_MARKER_ID !in r
    ensures forall x :: x != BACKLOG_MARKER_ID ==> (x in r <==> x in s)
  {
    if s == [] then []
    else (if s[0] == BACKLOG_MARKER_ID then [] else [s[0]]) + WithoutDividers(s[1..])
  }

  lemma {:induction false} WithoutDividersAppend(a: seq<int>, b: seq<int>)
    ensures WithoutDividers(a + b) == WithoutDividers(a) + WithoutDividers(b)
  {
    if a == [] {
      assert a + b == b;
    } else {
      assert (a + b)[1..] == a[1..] + b;
      WithoutDividersAppend(a[1..], b);
    }
  }

  lemma {:induction false} WithoutDividersNone(a: seq<int>)
    requires BACKLOG_MARKER_ID !in a
    ensures WithoutDividers(a) == a
  {
    if a != [] {
      WithoutDividersNone(a[1..]);
    }
  }

  /** Position of the first divider id in the on-screen order. */
  function FirstDivider(dom: seq<int>): (r: Option<nat>)
    ensures r.Some? ==> r.value < |dom| && dom[r.value] == BACKLOG_MARKER_ID
                        && BACKLOG_MARKER_ID !in dom[..r.value]
    ensures r.None? ==> BACKLOG_MARKER_ID !in dom
  {
    if dom == [] then None
    else if dom[0] == BACKLOG_MARKER_ID then Some(0)
    else match FirstDivider(dom[1..])
      case None => None
      case Some(k) =>
        assert dom[..k + 1] == [dom[0]] + dom[1..][..k];
        Some(k + 1)
  }

  /**
   * The `idsAbove` / `idsBelow` pair: everything before the first divider id
   * is above, everything after it (other divider ids dropped) is below.
   */
  function SplitAtDivider(dom: seq<int>): (r: (seq<int>, seq<int>))
    ensures BACKLOG_MARKER_ID !in r.0 && BACKLOG_MARKER_ID !in r.1
    ensures r.0 + r.1 == WithoutDividers(dom)
    ensures |r.0| <= |dom| && r.0 == dom[..|r.0|]
    ensures |r.0| < |dom| ==> dom[|r.0|] == BACKLOG_MARKER_ID
  {
    match FirstDivider(dom)
    case None =>
      WithoutDividersNone(dom);
      (dom, [])
    case Some(i) =>
      SplitAtDividerSome(dom, i);
      (dom[..i], WithoutDividers(dom[i + 1..]))
  }

  /** The ids before the first divider id are exactly the active segment. */
  lemma SplitAtFirstDivider(dom: seq<int>, i: nat)
    requires i < |dom| && dom[i] == BACKLOG_MARKER_ID && BACKLOG_MARKER_ID !in dom[..i]
    ensures SplitAtDivider(dom).0 == dom[..i]
  {
    assert dom[i] in dom;
  }

  /** Without a divider id, every id is in the active segment. */
  lemma SplitWithoutDivider(dom: seq<int>)
    requires BACKLOG_MARKER_ID !in dom
    ensures SplitAtDivider(dom) == (dom, [])
  {
  }

  lemma SplitAtDividerSome(dom: seq<int>, i: nat)
    requires i < |dom| && dom[i] == BACKLOG_MARKER_ID && BACKLOG_MARKER_ID !in dom[..i]
    ensures dom[..i] + WithoutDividers(dom[i + 1..]) == WithoutDividers(dom)
  {
    var a, c := dom[..i], dom[i..];
    assert dom == a + c;
    WithoutDividersAppend(a, c);
    assert c[0] == BACKLOG_MARKER_ID && c[1..] == dom[i + 1..];
    assert WithoutDividers(c) == WithoutDividers(dom[i + 1..]);
    WithoutDividersNone(a);
  }

  // ---------------------------------------------------------------------
  // Sides, incumbents and crossers
  // ---------------------------------------------------------------------

  /** Whether a task with divider pivot `pivot` has its store entry without numeric priority. */
  predicate DividerPriorityNumeric(tasks: seq<Task>) {
    match FindIndex(tasks, BACKLOG_MARKER_ID)
    case None => true
    case Some(k) => tasks[k].priority.Some?
  }

  /** `dividerTask ? dividerTask.priority : Number.MAX_SAFE_INTEGER`. */
  function Pivot(tasks: seq<Task>): real
    requires DividerPriorityNumeric(tasks)
  {
    match FindIndex(tasks, BACKLOG_MARKER_ID)
    case None => MAX_SAFE_INTEGER
    case Some(k) => tasks[k].priority.value
  }

  /** Every value of `m` lies on the segment's side of the pivot. */
  ghost predicate ValuesOnSide(m: map<int, real>, isAbove: bool, pivot: real) {
    forall id {:trigger m[id]} :: id in m ==> OnSide(m[id], isAbove, pivot)
  }

  lemma ValuesOnSideAt(m: map<int, real>, id: int, isAbove: bool, pivot: real)
    requires id in m
    ensures ValuesOnSide(m, isAbove, pivot) ==> OnSide(m[id], isAbove, pivot)
  {
  }

  /** `keepSide`: strictly above the divider for the active segment, strictly below for the backlog. */
  predicate OnSide(p: real, isAbove: bool, pivot: real) {
    if isAbove then p < pivot else p > pivot
  }

  /** An id whose task exists and whose priority is already on the segment's side. */
  predicate IsIncumbent(tasks: seq<Task>, id: int, isAbove: bool, pivot: real) {
    var p := PriorityOf(tasks, id);
    p.Some? && OnSide(p.value, isAbove, pivot)
  }

  /** `ids.filter(...)` keeping the incumbents, in order. */
  function Incumbents(tasks: seq<Task>, ids: seq<int>, isAbove: bool, pivot: real): (r: seq<int>)
    ensures forall id :: id in r <==> id in ids && IsIncumbent(tasks, id, isAbove, pivot)
    ensures (forall i :: 0 <= i < |ids| ==> IsIncumbent(tasks, ids[i], isAbove, pivot)) ==> r == ids
  {
    if ids == [] then []
    else (if IsIncumbent(tasks, ids[0], isAbove, pivot) then [ids[0]] else [])
         + Incumbents(tasks, ids[1..], isAbove, pivot)
  }

  /** `ids.filter(id => !incumbents.includes(id))`. */
  function Crossers(ids: seq<int>, incumbents: seq<int>): (r: seq<int>)
    ensures forall id :: id in r <==> id in ids && id !in incumbents
    ensures r == [] <==> forall i :: 0 <= i < |ids| ==> ids[i] in incumbents
  {
    if ids == [] then []
    else (if ids[0] in incumbents then [] else [ids[0]]) + Crossers(ids[1..], incumbents)
  }

  /** The stored priorities of `ids`, in order (`incumbents.map(getPriority)`). */
  function PriorityValues(tasks: seq<Task>, ids: seq<int>): (r: seq<real>)
    requires forall id :: id in ids ==> PriorityOf(tasks, id).Some?
    ensures |r| == |ids|
    ensures forall i :: 0 <= i < |ids| ==> Some(r[i]) == PriorityOf(tasks, ids[i])
  {
    seq(|ids|, i requires 0 <= i < |ids| => PriorityOf(tasks, ids[i]).value)
  }

  // ---------------------------------------------------------------------
  // Case 1: a pure reorder permutes the segment's priority values
  // ---------------------------------------------------------------------

  ghost predicate SortedAsc(s: seq<real>) {
    forall i, j :: 0 <= i < j < |s| ==> s[i] <= s[j]
  }

  /** A value no larger than every element of a sorted sequence can go in front of it. */
  lemma ConsSorted(h: real, s: seq<real>)
    requires SortedAsc(s) && forall k :: 0 <= k < |s| ==> h <= s[k]
    ensures SortedAsc([h] + s)
  {
    var r := [h] + s;
    forall i, j | 0 <= i < j < |r| ensures r[i] <= r[j] {
      assert r[j] == s[j - 1];
      if i > 0 {
        assert r[i] == s[i - 1];
      }
    }
  }

  function Insert(x: real, s: seq<real>): (r: seq<real>)
    requires SortedAsc(s)
    ensures SortedAsc(r) && multiset(r) == multiset(s) + multiset{x} && |r| == |s| + 1
  {
    if s == [] || x <= s[0] then
      ConsSorted(x, s);
      [x] + s
    else
      var rest := Insert(x, s[1..]);
      assert s == [s[0]] + s[1..];
      forall k | 0 <= k < |rest| ensures s[0] <= rest[k] {
        assert rest[k] in multiset(rest);
        assert rest[k] == x || rest[k] in multiset(s[1..]);
      }
      ConsSorted(s[0], rest);
      assert multiset([s[0]] + rest) == multiset([s[0]]) + multiset(rest);
      assert multiset(s) == multiset([s[0]]) + multiset(s[1..]);
      [s[0]] + rest
  }

  /** `.sort((a, b) => a - b)` on numbers: ascending order, same values. */
  function Sort(s: seq<real>): (r: seq<real>)
    ensures SortedAsc(r) && multiset(r) == multiset(s) && |r| == |s|
  {
    if s == [] then []
    else
      assert s == [s[0]] + s[1..];
      Insert(s[0], Sort(s[1..]))
  }

  /** `ids.forEach((id, i) => write vals[i])` over the first `n` positions; a later position wins. */
  function ReorderMap(ids: seq<int>, vals: seq<real>, n: nat): (m: map<int, real>)
    requires n <= |ids| && n <= |vals|
    ensures forall id :: id in m <==> id in ids[..n]
    ensures forall id :: id in m ==> m[id] in vals[..n]
  {
    if n == 0 then map[]
    else
      var m := ReorderMap(ids, vals, n - 1);
      assert ids[..n] == ids[..n - 1] + [ids[n - 1]];
      assert vals[..n] == vals[..n - 1] + [vals[n - 1]];
      m[ids[n - 1] := vals[n - 1]]
  }

  // ---------------------------------------------------------------------
  // Case 2: minting new priorities for crossers only
  // ---------------------------------------------------------------------

  /**
   * A number for a crosser between `lower` and `upper`: the midpoint when both
   * are finite, one step inside the only finite bound otherwise, and one step
   * from the divider when neither is finite.
   */
  function Mint(lower: Bound, upper: Bound, isAbove: bool, pivot: real): (r: real)
    ensures lower.Fin? && upper.Fin? && lower.v < upper.v ==> lower.v < r < upper.v
    ensures !lower.Fin? && upper.Fin? ==> r < upper.v
    ensures lower.Fin? && !upper.Fin? ==> lower.v < r
    ensures !lower.Fin? && !upper.Fin? ==> OnSide(r, isAbove, pivot)
  {
    if lower.Fin? && upper.Fin? then (lower.v + upper.v) / 2.0
    else if upper.Fin? then upper.v - 1.0
    else if lower.Fin? then lower.v + 1.0
    else if isAbove then pivot - 1.0 else pivot + 1.0
  }

  /** Seeding `newP` with every incumbent's current priority. */
  function Seed(tasks: seq<Task>, incumbents: seq<int>): (m: map<int, real>)
    requires forall id :: id in incumbents ==> PriorityOf(tasks, id).Some?
    ensures forall id :: id in m <==> id in incumbents
    ensures forall id :: id in m ==> Some(m[id]) == PriorityOf(tasks, id)
  {
    if incumbents == [] then map[]
    else
      var last := incumbents[|incumbents| - 1];
      assert incumbents == incumbents[..|incumbents| - 1] + [last];
      Seed(tasks, incumbents[..|incumbents| - 1])[last := PriorityOf(tasks, last).value]
  }

  /** `newP.has(j) || keepSide(getPriority(j) ?? NaN)`. */
  predicate IsAnchor(tasks: seq<Task>, id: int, newP: map<int, real>, isAbove: bool, pivot: real) {
    id in newP || IsIncumbent(tasks, id, isAbove, pivot)
  }

  /** The nearest anchor position before `i` (the reversed-slice `find`). */
  function PrevAnchor(tasks: seq<Task>, ids: seq<int>, i: nat, newP: map<int, real>, isAbove: bool, pivot: real): (r: Option<nat>)
    requires i <= |ids|
    ensures r.Some? ==> r.value < i && IsAnchor(tasks, ids[r.value], newP, isAbove, pivot)
    ensures r.Some? ==> forall j :: r.value < j < i ==> !IsAnchor(tasks, ids[j], newP, isAbove, pivot)
    ensures r.None? ==> forall j :: 0 <= j < i ==> !IsAnchor(tasks, ids[j], newP, isAbove, pivot)
  {
    if i == 0 then None
    else if IsAnchor(tasks, ids[i - 1], newP, isAbove, pivot) then Some(i - 1)
    else PrevAnchor(tasks, ids, i - 1, newP, isAbove, pivot)
  }

  /** The nearest anchor position at or after `from` (the forward-slice `find`). */
  function NextAnchorFrom(tasks: seq<Task>, ids: seq<int>, from: nat, newP: map<int, real>, isAbove: bool, pivot: real): (r: Option<nat>)
    ensures r.Some? ==> from <= r.value < |ids| && IsAnchor(tasks, ids[r.value], newP, isAbove, pivot)
    ensures r.Some? ==> forall j :: from <= j < r.value ==> !IsAnchor(tasks, ids[j], newP, isAbove, pivot)
    ensures r.None? ==> forall j :: from <= j < |ids| ==> !IsAnchor(tasks, ids[j], newP, isAbove, pivot)
    decreases |ids| - from
  {
    if from >= |ids| then None
    else if IsAnchor(tasks, ids[from], newP, isAbove, pivot) then Some(from)
    else NextAnchorFrom(tasks, ids, from + 1, newP, isAbove, pivot)
  }

  /** `neighborPriority`: the kept or minted value of an anchor, else the incumbent's own priority. */
  function NeighborPriority(tasks: seq<Task>, ids: seq<int>, at: Option<nat>, newP: map<int, real>, isAbove: bool, pivot: real): (r: Option<real>)
    requires at.Some? ==> at.value < |ids|
    ensures r.Some? && ValuesOnSide(newP, isAbove, pivot) ==> OnSide(r.value, isAbove, pivot)
  {
    match at
    case None => None
    case Some(j) =>
      if ids[j] in newP then
        ValuesOnSideAt(newP, ids[j], isAbove, pivot);
        Some(newP[ids[j]])
      else if IsIncumbent(tasks, ids[j], isAbove, pivot) then PriorityOf(tasks, ids[j])
      else None
  }

  /**
   * The value minted for the crosser at position `i`: bounds default to the
   * divider on the divider's side and to an infinity on the other, and are
   * replaced by the nearest anchors' priorities.
   */
  function MintAt(tasks: seq<Task>, ids: seq<int>, i: nat, newP: map<int, real>, isAbove: bool, pivot: real): (r: real)
    requires i < |ids|
    ensures ValuesOnSide(newP, isAbove, pivot) ==> OnSide(r, isAbove, pivot)
  {
    var pPrev := NeighborPriority(tasks, ids, PrevAnchor(tasks, ids, i, newP, isAbove, pivot), newP, isAbove, pivot);
    var pNext := NeighborPriority(tasks, ids, NextAnchorFrom(tasks, ids, i + 1, newP, isAbove, pivot), newP, isAbove, pivot);
    var lower := if pPrev.Some? then Fin(pPrev.value) else if isAbove then NegInf else Fin(pivot);
    var upper := if pNext.Some? then Fin(pNext.value) else if isAbove then Fin(pivot) else PosInf;
    Mint(lower, upper, isAbove, pivot)
  }

  /** The left-to-right walk from position `i`: ids already in `newP` are skipped, the others minted. */
  function MintFrom(tasks: seq<Task>, ids: seq<int>, isAbove: bool, pivot: real, i: nat, newP: map<int, real>): map<int, real>
    requires i <= |ids|
    decreases |ids| - i
  {
    if i == |ids| then newP
    else if ids[i] in newP then MintFrom(tasks, ids, isAbove, pivot, i + 1, newP)
    else MintFrom(tasks, ids, isAbove, pivot, i + 1, newP[ids[i] := MintAt(tasks, ids, i, newP, isAbove, pivot)])
  }

  // ---------------------------------------------------------------------
  // One segment and the whole bucket
  // ---------------------------------------------------------------------

  /** `assignSegment(ids, isAbove)`: the priority to write for every id of the segment. */
  function SegmentMap(tasks: seq<Task>, ids: seq<int>, isAbove: bool, pivot: real): map<int, real> {
    var incumbents := Incumbents(tasks, ids, isAbove, pivot);
    if |Crossers(ids, incumbents)| == 0 then
      assert incumbents == ids;
      ReorderMap(ids, Sort(PriorityValues(tasks, incumbents)), |ids|)
    else
      MintFrom(tasks, ids, isAbove, pivot, 0, Seed(tasks, incumbents))
  }

  /** The store after `assignSegment(ids, isAbove)`. */
  function AssignedSegment(tasks: seq<Task>, ids: seq<int>, isAbove: bool, pivot: real): seq<Task> {
    Apply(tasks, SegmentMap(tasks, ids, isAbove, pivot))
  }

  /** The store after `rebalanceGroupPrioritiesForDomOrder` for the on-screen order `dom`. */
  function Rebalanced(tasks: seq<Task>, dom: seq<int>): seq<Task>
    requires DividerPriorityNumeric(tasks)
  {
    var (above, below) := SplitAtDivider(dom);
    var pivot := Pivot(tasks);
    AssignedSegment(AssignedSegment(tasks, above, true, pivot), below, false, pivot)
  }
}
