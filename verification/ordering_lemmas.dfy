/**
 * What the ordering engine guarantees: which ids get a priority, that each
 * segment stays on its side of the divider, that incumbents keep their
 * numbers when something crosses, that a pure reorder only permutes the
 * segment's numbers, and that afterwards sorting by priority reproduces the
 * on-screen order.
 */
module OrderingLemmas {
  import opened Wrappers
  import opened Tasks
  import opened Ordering

  /** No id appears twice in the on-screen order. */
  ghost predicate Distinct(ids: seq<int>) {
    forall i, j :: 0 <= i < j < |ids| ==> ids[i] != ids[j]
  }

  /** The incumbents of a segment already sort in their on-screen order. */
  ghost predicate IncumbentsIncreasing(tasks: seq<Task>, ids: seq<int>, isAbove: bool, pivot: real) {
    forall j, k :: 0 <= j < k < |ids| && IsIncumbent(tasks, ids[j], isAbove, pivot)
                   && IsIncumbent(tasks, ids[k], isAbove, pivot)
      ==> PriorityOf(tasks, ids[j]).value < PriorityOf(tasks, ids[k]).value
  }

  /** Nothing crossed into the segment: every id already has a priority on its side. */
  ghost predicate NoCrosser(tasks: seq<Task>, ids: seq<int>, isAbove: bool, pivot: real) {
    forall id :: id in ids ==> IsIncumbent(tasks, id, isAbove, pivot)
  }

  /** No two ids of the segment that have a priority share the same one. */
  ghost predicate DistinctPriorities(tasks: seq<Task>, ids: seq<int>) {
    forall j, k :: 0 <= j < k < |ids| && PriorityOf(tasks, ids[j]).Some? && PriorityOf(tasks, ids[k]).Some?
      ==> PriorityOf(tasks, ids[j]).value != PriorityOf(tasks, ids[k]).value
  }

  /**
   * Exactly what a segment needs for its new priorities to strictly increase
   * along the screen (`SegmentFollowsScreenOrder`, `SegmentOrderNeedsReady`):
   * for a pure reorder, that no two of its tasks share a priority, in
   * whatever order they come; when something crosses, that the incumbents,
   * which keep their numbers, are already in on-screen order.
   */
  ghost predicate SegmentReady(tasks: seq<Task>, ids: seq<int>, isAbove: bool, pivot: real) {
    if NoCrosser(tasks, ids, isAbove, pivot) then DistinctPriorities(tasks, ids)
    else IncumbentsIncreasing(tasks, ids, isAbove, pivot)
  }

  // ---------------------------------------------------------------------
  // Facts about the minting walk
  // ---------------------------------------------------------------------

  /** The walk adds exactly the remaining ids, never changes a value already present, and stays on side. */
  lemma {:induction false} MintFromFacts(tasks: seq<Task>, ids: seq<int>, isAbove: bool, pivot: real, i: nat, newP: map<int, real>)
    requires i <= |ids|
    ensures var m := MintFrom(tasks, ids, isAbove, pivot, i, newP);
      && (forall id :: id in m <==> id in newP || id in ids[i..])
      && (forall id :: id in newP ==> m[id] == newP[id])
      && (ValuesOnSide(newP, isAbove, pivot) ==> ValuesOnSide(m, isAbove, pivot))
    decreases |ids| - i
  {
    if i < |ids| {
      assert ids[i..] == [ids[i]] + ids[i + 1..];
      if ids[i] in newP {
        MintFromFacts(tasks, ids, isAbove, pivot, i + 1, newP);
      } else {
        var p := MintAt(tasks, ids, i, newP, isAbove, pivot);
        MintFromFacts(tasks, ids, isAbove, pivot, i + 1, newP[ids[i] := p]);
      }
    }
  }

  /** `newP` values for ids from position `j` on strictly increase along the order, for `j < i`. */
  ghost predicate OrderedUpTo(ids: seq<int>, newP: map<int, real>, i: nat) {
    forall j, k :: 0 <= j < k < |ids| && j < i && ids[j] in newP && ids[k] in newP
      ==> newP[ids[j]] < newP[ids[k]]
  }

  /** The state of the walk before position `i`. */
  ghost predicate MintState(tasks: seq<Task>, ids: seq<int>, isAbove: bool, pivot: real, i: nat, newP: map<int, real>) {
    && i <= |ids|
    && (forall j :: 0 <= j < i ==> ids[j] in newP)
    && (forall j :: i <= j < |ids| ==> (ids[j] in newP <==> IsIncumbent(tasks, ids[j], isAbove, pivot)))
    && (forall j :: i <= j < |ids| && ids[j] in newP ==> Some(newP[ids[j]]) == PriorityOf(tasks, ids[j]))
    && ValuesOnSide(newP, isAbove, pivot)
    && OrderedUpTo(ids, newP, i)
  }

  /** The number minted at position `i` lies strictly between its two neighbours in the order. */
  lemma MintBetween(tasks: seq<Task>, ids: seq<int>, isAbove: bool, pivot: real, i: nat, newP: map<int, real>)
    requires Distinct(ids) && IncumbentsIncreasing(tasks, ids, isAbove, pivot)
    requires MintState(tasks, ids, isAbove, pivot, i, newP) && i < |ids| && ids[i] !in newP
    ensures var p := MintAt(tasks, ids, i, newP, isAbove, pivot);
      && (i > 0 ==> newP[ids[i - 1]] < p)
      && (forall n :: i < n < |ids| && ids[n] in newP ==> p < newP[ids[n]])
  {
    var p := MintAt(tasks, ids, i, newP, isAbove, pivot);
    var prev := PrevAnchor(tasks, ids, i, newP, isAbove, pivot);
    var next := NextAnchorFrom(tasks, ids, i + 1, newP, isAbove, pivot);
    if i > 0 {
      assert IsAnchor(tasks, ids[i - 1], newP, isAbove, pivot);
      assert prev == Some(i - 1);
    }
    var pPrev := NeighborPriority(tasks, ids, prev, newP, isAbove, pivot);
    var pNext := NeighborPriority(tasks, ids, next, newP, isAbove, pivot);
    if next.Some? {
      assert ids[next.value] in newP;
      assert pNext == Some(newP[ids[next.value]]);
    }
    var lower := if pPrev.Some? then Fin(pPrev.value) else if isAbove then NegInf else Fin(pivot);
    var upper := if pNext.Some? then Fin(pNext.value) else if isAbove then Fin(pivot) else PosInf;
    assert p == Mint(lower, upper, isAbove, pivot);
    if i > 0 && next.Some? {
      assert OrderedUpTo(ids, newP, i);
      assert newP[ids[i - 1]] < newP[ids[next.value]];
    } else if i > 0 {
      assert OnSide(newP[ids[i - 1]], isAbove, pivot);
    } else if next.Some? {
      assert OnSide(newP[ids[next.value]], isAbove, pivot);
    }
    assert next.Some? ==> p < newP[ids[next.value]];
    forall n | i < n < |ids| && ids[n] in newP
      ensures p < newP[ids[n]]
    {
      assert IsAnchor(tasks, ids[n], newP, isAbove, pivot);
      var a := next.value;
      if a < n {
        assert IsIncumbent(tasks, ids[a], isAbove, pivot) && IsIncumbent(tasks, ids[n], isAbove, pivot);
      }
    }
  }

  /** Minting a crosser keeps the walk's state. */
  lemma MintStep(tasks: seq<Task>, ids: seq<int>, isAbove: bool, pivot: real, i: nat, newP: map<int, real>)
    requires Distinct(ids) && IncumbentsIncreasing(tasks, ids, isAbove, pivot)
    requires MintState(tasks, ids, isAbove, pivot, i, newP) && i < |ids| && ids[i] !in newP
    ensures MintState(tasks, ids, isAbove, pivot, i + 1, newP[ids[i] := MintAt(tasks, ids, i, newP, isAbove, pivot)])
  {
    var p := MintAt(tasks, ids, i, newP, isAbove, pivot);
    var q := newP[ids[i] := p];
    MintBetween(tasks, ids, isAbove, pivot, i, newP);
    forall j, k | 0 <= j < k < |ids| && j < i + 1 && ids[j] in q && ids[k] in q
      ensures q[ids[j]] < q[ids[k]]
    {
      if j == i {
        assert ids[k] != ids[i] && ids[k] in newP;
      } else if k == i {
        if j < i - 1 {
          assert newP[ids[j]] < newP[ids[i - 1]];
        }
      } else {
        assert ids[j] != ids[i] && ids[k] != ids[i];
      }
    }
    forall j | i + 1 <= j < |ids|
      ensures ids[j] in q <==> IsIncumbent(tasks, ids[j], isAbove, pivot)
    {
      assert ids[j] != ids[i];
    }
  }

  /** Skipping an id already in `newP` keeps the walk's state. */
  lemma MintSkip(tasks: seq<Task>, ids: seq<int>, isAbove: bool, pivot: real, i: nat, newP: map<int, real>)
    requires IncumbentsIncreasing(tasks, ids, isAbove, pivot)
    requires MintState(tasks, ids, isAbove, pivot, i, newP) && i < |ids| && ids[i] in newP
    ensures MintState(tasks, ids, isAbove, pivot, i + 1, newP)
  {
    forall k | i < k < |ids| && ids[k] in newP
      ensures newP[ids[i]] < newP[ids[k]]
    {
      assert IsIncumbent(tasks, ids[i], isAbove, pivot) && IsIncumbent(tasks, ids[k], isAbove, pivot);
    }
  }

  /** Every id of `ids` has a value in `m`, strictly increasing along `ids`. */
  ghost predicate IncreasingAlong(ids: seq<int>, m: map<int, real>) {
    forall j, k :: 0 <= j < k < |ids| ==> ids[j] in m && ids[k] in m && m[ids[j]] < m[ids[k]]
  }

  /** At the end of the walk every id has a number, increasing along the order. */
  lemma MintDone(tasks: seq<Task>, ids: seq<int>, isAbove: bool, pivot: real, newP: map<int, real>)
    requires MintState(tasks, ids, isAbove, pivot, |ids|, newP)
    ensures IncreasingAlong(ids, newP)
  {
    assert OrderedUpTo(ids, newP, |ids|);
  }

  /** The finished walk gives every id a number, strictly increasing along the order. */
  lemma {:induction false} MintFromOrdered(tasks: seq<Task>, ids: seq<int>, isAbove: bool, pivot: real, i: nat, newP: map<int, real>)
    requires Distinct(ids) && IncumbentsIncreasing(tasks, ids, isAbove, pivot)
    requires MintState(tasks, ids, isAbove, pivot, i, newP)
    ensures IncreasingAlong(ids, MintFrom(tasks, ids, isAbove, pivot, i, newP))
    decreases |ids| - i
  {
    if i == |ids| {
      MintDone(tasks, ids, isAbove, pivot, newP);
    } else if ids[i] in newP {
      MintSkip(tasks, ids, isAbove, pivot, i, newP);
      MintFromOrdered(tasks, ids, isAbove, pivot, i + 1, newP);
    } else {
      var q := newP[ids[i] := MintAt(tasks, ids, i, newP, isAbove, pivot)];
      MintStep(tasks, ids, isAbove, pivot, i, newP);
      MintFromOrdered(tasks, ids, isAbove, pivot, i + 1, q);
    }
  }

  // ---------------------------------------------------------------------
  // One segment
  // ---------------------------------------------------------------------

  /** With distinct ids, the reorder writes the `k`-th value to the `k`-th id. */
  lemma {:induction false} ReorderMapAt(ids: seq<int>, vals: seq<real>, n: nat, k: nat)
    requires n <= |ids| && n <= |vals| && Distinct(ids) && k < n
    ensures ids[k] in ReorderMap(ids, vals, n) && ReorderMap(ids, vals, n)[ids[k]] == vals[k]
  {
    var m := ReorderMap(ids, vals, n - 1);
    assert ReorderMap(ids, vals, n) == m[ids[n - 1] := vals[n - 1]];
    if k < n - 1 {
      ReorderMapAt(ids, vals, n - 1, k);
      assert ids[k] != ids[n - 1];
    }
  }

  /** Sorting values that are already in ascending order changes nothing. */
  lemma {:induction false} SortOfSorted(s: seq<real>)
    requires SortedAsc(s)
    ensures Sort(s) == s
  {
    if s != [] {
      SortOfSorted(s[1..]);
      assert s == [s[0]] + s[1..];
    }
  }

  /** The incumbents seed the walk in the state `MintState` describes. */
  lemma SeedState(tasks: seq<Task>, ids: seq<int>, isAbove: bool, pivot: real)
    ensures MintState(tasks, ids, isAbove, pivot, 0, Seed(tasks, Incumbents(tasks, ids, isAbove, pivot)))
  {
    var incumbents := Incumbents(tasks, ids, isAbove, pivot);
    var seed := Seed(tasks, incumbents);
    forall j | 0 <= j < |ids|
      ensures ids[j] in seed <==> IsIncumbent(tasks, ids[j], isAbove, pivot)
    {
      assert ids[j] in ids;
    }
    forall id | id in seed
      ensures OnSide(seed[id], isAbove, pivot)
    {
      assert IsIncumbent(tasks, id, isAbove, pivot);
    }
    assert ValuesOnSide(seed, isAbove, pivot);
    assert forall j :: 0 <= j < |ids| && ids[j] in seed ==> Some(seed[ids[j]]) == PriorityOf(tasks, ids[j]);
    assert OrderedUpTo(ids, seed, 0);
  }

  /** `assignSegment` gives a priority to exactly the ids of the segment. */
  lemma SegmentMapKeys(tasks: seq<Task>, ids: seq<int>, isAbove: bool, pivot: real)
    ensures forall id :: id in SegmentMap(tasks, ids, isAbove, pivot) <==> id in ids
  {
    var incumbents := Incumbents(tasks, ids, isAbove, pivot);
    if |Crossers(ids, incumbents)| == 0 {
      assert ids[..|ids|] == ids;
    } else {
      MintFromFacts(tasks, ids, isAbove, pivot, 0, Seed(tasks, incumbents));
      assert ids[0..] == ids;
    }
  }

  /** Every priority `assignSegment` writes lies on the segment's side of the divider. */
  lemma SegmentMapOnSide(tasks: seq<Task>, ids: seq<int>, isAbove: bool, pivot: real)
    ensures ValuesOnSide(SegmentMap(tasks, ids, isAbove, pivot), isAbove, pivot)
  {
    var incumbents := Incumbents(tasks, ids, isAbove, pivot);
    var m := SegmentMap(tasks, ids, isAbove, pivot);
    if |Crossers(ids, incumbents)| == 0 {
      var values := PriorityValues(tasks, ids);
      var sorted := Sort(values);
      forall id | id in m
        ensures OnSide(m[id], isAbove, pivot)
      {
        assert m[id] in sorted[..|ids|];
        assert m[id] in multiset(sorted);
        var j :| 0 <= j < |values| && values[j] == m[id];
        assert IsIncumbent(tasks, ids[j], isAbove, pivot);
      }
    } else {
      MintFromFacts(tasks, ids, isAbove, pivot, 0, Seed(tasks, incumbents));
    }
  }

  /** When something crosses the divider, every incumbent keeps the priority it had. */
  lemma IncumbentsKeepPriority(tasks: seq<Task>, ids: seq<int>, isAbove: bool, pivot: real)
    requires exists i :: 0 <= i < |ids| && !IsIncumbent(tasks, ids[i], isAbove, pivot)
    ensures var m := SegmentMap(tasks, ids, isAbove, pivot);
      forall id :: id in ids && IsIncumbent(tasks, id, isAbove, pivot) ==> id in m && Some(m[id]) == PriorityOf(tasks, id)
  {
    var incumbents := Incumbents(tasks, ids, isAbove, pivot);
    var i :| 0 <= i < |ids| && !IsIncumbent(tasks, ids[i], isAbove, pivot);
    assert ids[i] in Crossers(ids, incumbents);
    MintFromFacts(tasks, ids, isAbove, pivot, 0, Seed(tasks, incumbents));
  }

  /**
   * A pure reorder (nothing crosses the divider) hands out the segment's own
   * priorities again, smallest first, in on-screen order.
   */
  lemma PureReorder(tasks: seq<Task>, ids: seq<int>, isAbove: bool, pivot: real)
    requires Distinct(ids) && NoCrosser(tasks, ids, isAbove, pivot)
    ensures var m := SegmentMap(tasks, ids, isAbove, pivot);
      var sorted := Sort(PriorityValues(tasks, ids));
      forall i :: 0 <= i < |ids| ==> ids[i] in m && m[ids[i]] == sorted[i]
  {
    assert forall i :: 0 <= i < |ids| ==> IsIncumbent(tasks, ids[i], isAbove, pivot);
    var incumbents := Incumbents(tasks, ids, isAbove, pivot);
    assert incumbents == ids;
    assert |Crossers(ids, incumbents)| == 0;
    var sorted := Sort(PriorityValues(tasks, ids));
    var m := ReorderMap(ids, sorted, |ids|);
    assert m == SegmentMap(tasks, ids, isAbove, pivot);
    forall i | 0 <= i < |ids|
      ensures ids[i] in m && m[ids[i]] == sorted[i]
    {
      ReorderMapAt(ids, sorted, |ids|, i);
    }
  }

  /** In a sequence without repeats every value occurs at most once. */
  lemma {:induction false} DistinctCountOne(s: seq<real>, x: real)
    requires forall j, k :: 0 <= j < k < |s| ==> s[j] != s[k]
    ensures multiset(s)[x] <= 1
  {
    if s != [] {
      assert s == [s[0]] + s[1..];
      DistinctCountOne(s[1..], x);
      forall i | 0 <= i < |s| - 1
        ensures s[1..][i] != s[0]
      {
        assert s[1..][i] == s[i + 1];
      }
    }
  }

  /** A value found at two positions occurs at least twice. */
  lemma RepeatCountTwo(s: seq<real>, j: nat, k: nat)
    requires j < k < |s| && s[j] == s[k]
    ensures multiset(s)[s[j]] >= 2
  {
    assert s == s[..k] + s[k..];
    assert s[..k][j] == s[j] && s[k..][0] == s[k];
    assert s[j] in multiset(s[..k]) && s[k] in multiset(s[k..]);
  }

  /** Sorting values without repeats gives a strictly increasing sequence. */
  lemma SortDistinctStrict(values: seq<real>)
    requires forall j, k :: 0 <= j < k < |values| ==> values[j] != values[k]
    ensures var sorted := Sort(values);
      forall j, k :: 0 <= j < k < |sorted| ==> sorted[j] < sorted[k]
  {
    var sorted := Sort(values);
    forall j, k | 0 <= j < k < |sorted|
      ensures sorted[j] < sorted[k]
    {
      if sorted[j] == sorted[k] {
        RepeatCountTwo(sorted, j, k);
        DistinctCountOne(values, sorted[j]);
        assert false;
      }
    }
  }

  /**
   * The drop lands where it was made: when the segment is ready (no two of
   * its tasks share a priority in a pure reorder; the incumbents already in
   * order when something crosses), the segment's priorities strictly
   * increase along the on-screen order.
   */
  lemma SegmentFollowsScreenOrder(tasks: seq<Task>, ids: seq<int>, isAbove: bool, pivot: real)
    requires Distinct(ids) && SegmentReady(tasks, ids, isAbove, pivot)
    ensures IncreasingAlong(ids, SegmentMap(tasks, ids, isAbove, pivot))
  {
    var incumbents := Incumbents(tasks, ids, isAbove, pivot);
    var crossers := Crossers(ids, incumbents);
    if |crossers| == 0 {
      forall id | id in ids
        ensures IsIncumbent(tasks, id, isAbove, pivot)
      {
        assert id !in crossers;
      }
      ReorderFollowsScreenOrder(tasks, ids, isAbove, pivot);
    } else {
      assert crossers[0] in crossers;
      SeedState(tasks, ids, isAbove, pivot);
      MintFromOrdered(tasks, ids, isAbove, pivot, 0, Seed(tasks, incumbents));
    }
  }

  /**
   * The reorder case of `SegmentFollowsScreenOrder`: whatever order the
   * segment's tasks were in, distinct numbers handed out smallest first
   * strictly increase along the screen.
   */
  lemma ReorderFollowsScreenOrder(tasks: seq<Task>, ids: seq<int>, isAbove: bool, pivot: real)
    requires Distinct(ids) && NoCrosser(tasks, ids, isAbove, pivot) && DistinctPriorities(tasks, ids)
    ensures IncreasingAlong(ids, SegmentMap(tasks, ids, isAbove, pivot))
  {
    PureReorder(tasks, ids, isAbove, pivot);
    var values := PriorityValues(tasks, ids);
    forall j, k | 0 <= j < k < |values|
      ensures values[j] != values[k]
    {
      assert ids[j] in ids && ids[k] in ids;
    }
    SortDistinctStrict(values);
  }

  /** Every id of `ids` has a value in `m`, never decreasing along `ids`. */
  ghost predicate NonDecreasingAlong(ids: seq<int>, m: map<int, real>) {
    forall j, k :: 0 <= j < k < |ids| ==> ids[j] in m && ids[k] in m && m[ids[j]] <= m[ids[k]]
  }

  /**
   * A pure reorder never hands a later task a smaller number than an earlier
   * one, with no condition on the numbers the segment had; tied numbers stay
   * tied.
   */
  lemma ReorderNonDecreasing(tasks: seq<Task>, ids: seq<int>, isAbove: bool, pivot: real)
    requires Distinct(ids) && NoCrosser(tasks, ids, isAbove, pivot)
    ensures NonDecreasingAlong(ids, SegmentMap(tasks, ids, isAbove, pivot))
  {
    PureReorder(tasks, ids, isAbove, pivot);
  }

  /** A pure reorder of a segment already in on-screen order rewrites every task's own number. */
  lemma ReorderOfOrderedKeepsPriorities(tasks: seq<Task>, ids: seq<int>, isAbove: bool, pivot: real)
    requires Distinct(ids) && NoCrosser(tasks, ids, isAbove, pivot) && IncumbentsIncreasing(tasks, ids, isAbove, pivot)
    ensures var m := SegmentMap(tasks, ids, isAbove, pivot);
      forall id :: id in ids ==> id in m && Some(m[id]) == PriorityOf(tasks, id)
  {
    PureReorder(tasks, ids, isAbove, pivot);
    var values := PriorityValues(tasks, ids);
    forall j, k | 0 <= j < k < |values|
      ensures values[j] <= values[k]
    {
      assert ids[j] in ids && ids[k] in ids;
    }
    SortOfSorted(values);
  }

  /** A pure reorder that comes out strictly increasing had no shared priority. */
  lemma ReorderOrderNeedsDistinct(tasks: seq<Task>, ids: seq<int>, isAbove: bool, pivot: real)
    requires Distinct(ids) && NoCrosser(tasks, ids, isAbove, pivot)
    requires IncreasingAlong(ids, SegmentMap(tasks, ids, isAbove, pivot))
    ensures DistinctPriorities(tasks, ids)
  {
    var m := SegmentMap(tasks, ids, isAbove, pivot);
    PureReorder(tasks, ids, isAbove, pivot);
    var values := PriorityValues(tasks, ids);
    var sorted := Sort(values);
    forall j, k | 0 <= j < k < |sorted|
      ensures sorted[j] != sorted[k]
    {
      assert m[ids[j]] < m[ids[k]];
    }
    forall j, k | 0 <= j < k < |ids|
      ensures values[j] != values[k]
    {
      if values[j] == values[k] {
        RepeatCountTwo(values, j, k);
        DistinctCountOne(sorted, values[j]);
        assert false;
      }
    }
  }

  /** A crossing that comes out strictly increasing had its incumbents in order. */
  lemma CrossingOrderNeedsIncreasing(tasks: seq<Task>, ids: seq<int>, isAbove: bool, pivot: real)
    requires !NoCrosser(tasks, ids, isAbove, pivot)
    requires IncreasingAlong(ids, SegmentMap(tasks, ids, isAbove, pivot))
    ensures IncumbentsIncreasing(tasks, ids, isAbove, pivot)
  {
    var id :| id in ids && !IsIncumbent(tasks, id, isAbove, pivot);
    var i :| 0 <= i < |ids| && ids[i] == id;
    IncumbentsKeepPriority(tasks, ids, isAbove, pivot);
    forall j, k | 0 <= j < k < |ids| && IsIncumbent(tasks, ids[j], isAbove, pivot)
                  && IsIncumbent(tasks, ids[k], isAbove, pivot)
      ensures PriorityOf(tasks, ids[j]).value < PriorityOf(tasks, ids[k]).value
    {
      assert ids[j] in ids && ids[k] in ids;
    }
  }

  /**
   * The converse of `SegmentFollowsScreenOrder`: if a segment's new
   * priorities strictly increase along the screen, the segment was ready.
   */
  lemma SegmentOrderNeedsReady(tasks: seq<Task>, ids: seq<int>, isAbove: bool, pivot: real)
    requires Distinct(ids) && IncreasingAlong(ids, SegmentMap(tasks, ids, isAbove, pivot))
    ensures SegmentReady(tasks, ids, isAbove, pivot)
  {
    if NoCrosser(tasks, ids, isAbove, pivot) {
      ReorderOrderNeedsDistinct(tasks, ids, isAbove, pivot);
    } else {
      CrossingOrderNeedsIncreasing(tasks, ids, isAbove, pivot);
    }
  }

  /** A segment's new priorities strictly increase along the screen exactly when it is ready. */
  lemma SegmentOrderIffReady(tasks: seq<Task>, ids: seq<int>, isAbove: bool, pivot: real)
    requires Distinct(ids)
    ensures IncreasingAlong(ids, SegmentMap(tasks, ids, isAbove, pivot)) <==> SegmentReady(tasks, ids, isAbove, pivot)
  {
    if SegmentReady(tasks, ids, isAbove, pivot) {
      SegmentFollowsScreenOrder(tasks, ids, isAbove, pivot);
    }
    if IncreasingAlong(ids, SegmentMap(tasks, ids, isAbove, pivot)) {
      SegmentOrderNeedsReady(tasks, ids, isAbove, pivot);
    }
  }

  /**
   * Dropping into a segment that has no incumbent (an empty backlog, say)
   * gives the first id the number one step from the divider on that side.
   */
  lemma FirstIntoEmptySegment(tasks: seq<Task>, ids: seq<int>, isAbove: bool, pivot: real)
    requires |ids| > 0 && forall i :: 0 <= i < |ids| ==> !IsIncumbent(tasks, ids[i], isAbove, pivot)
    ensures var m := SegmentMap(tasks, ids, isAbove, pivot);
      ids[0] in m && m[ids[0]] == if isAbove then pivot - 1.0 else pivot + 1.0
  {
    var incumbents := Incumbents(tasks, ids, isAbove, pivot);
    if |incumbents| > 0 {
      assert incumbents[0] in incumbents;
    }
    assert ids[0] in Crossers(ids, incumbents);
    var empty: map<int, real> := map[];
    assert Seed(tasks, incumbents) == empty;
    var next := NextAnchorFrom(tasks, ids, 1, empty, isAbove, pivot);
    assert next.None?;
    var p := MintAt(tasks, ids, 0, empty, isAbove, pivot);
    assert p == if isAbove then pivot - 1.0 else pivot + 1.0;
    MintFromFacts(tasks, ids, isAbove, pivot, 1, empty[ids[0] := p]);
  }

  // ---------------------------------------------------------------------
  // The whole bucket
  // ---------------------------------------------------------------------

  lemma {:induction false} DistinctWithoutDividers(dom: seq<int>)
    requires Distinct(dom)
    ensures Distinct(WithoutDividers(dom))
  {
    if dom != [] {
      DistinctWithoutDividers(dom[1..]);
      assert dom[0] !in dom[1..];
    }
  }

  /** With distinct ids, the two segments are distinct and share no id. */
  lemma SplitDisjoint(dom: seq<int>)
    requires Distinct(dom)
    ensures var (above, below) := SplitAtDivider(dom);
      && Distinct(above) && Distinct(below)
      && (forall id :: id in above ==> id !in below)
      && (forall id :: id in above || id in below ==> id in dom)
  {
    var (above, below) := SplitAtDivider(dom);
    DistinctWithoutDividers(dom);
    var w := above + below;
    forall id | id in above
      ensures id !in below
    {
      var i :| 0 <= i < |above| && above[i] == id;
      forall j | 0 <= j < |below|
        ensures below[j] != id
      {
        assert w[i] == above[i] && w[|above| + j] == below[j];
      }
    }
    forall j, k | 0 <= j < k < |below|
      ensures below[j] != below[k]
    {
      assert w[|above| + j] == below[j] && w[|above| + k] == below[k];
    }
    forall id | id in below
      ensures id in dom
    {
      assert id in w;
    }
  }

  /** Incumbency and order of a segment depend only on its ids' priorities. */
  lemma IncumbentsIncreasingTransfer(tasks: seq<Task>, tasks': seq<Task>, ids: seq<int>, isAbove: bool, pivot: real)
    requires forall id :: id in ids ==> PriorityOf(tasks', id) == PriorityOf(tasks, id)
    requires IncumbentsIncreasing(tasks, ids, isAbove, pivot)
    ensures IncumbentsIncreasing(tasks', ids, isAbove, pivot)
  {
    forall j, k | 0 <= j < k < |ids| && IsIncumbent(tasks', ids[j], isAbove, pivot)
                  && IsIncumbent(tasks', ids[k], isAbove, pivot)
      ensures PriorityOf(tasks', ids[j]).value < PriorityOf(tasks', ids[k]).value
    {
      assert ids[j] in ids && ids[k] in ids;
    }
  }

  /** Whether a segment is ready depends only on its ids' priorities. */
  lemma SegmentReadyTransfer(tasks: seq<Task>, tasks': seq<Task>, ids: seq<int>, isAbove: bool, pivot: real)
    requires forall id :: id in ids ==> PriorityOf(tasks', id) == PriorityOf(tasks, id)
    requires SegmentReady(tasks, ids, isAbove, pivot)
    ensures SegmentReady(tasks', ids, isAbove, pivot)
  {
    forall j | 0 <= j < |ids|
      ensures PriorityOf(tasks', ids[j]) == PriorityOf(tasks, ids[j])
    {
      assert ids[j] in ids;
    }
    assert NoCrosser(tasks', ids, isAbove, pivot) == NoCrosser(tasks, ids, isAbove, pivot);
    if !NoCrosser(tasks, ids, isAbove, pivot) {
      IncumbentsIncreasingTransfer(tasks, tasks', ids, isAbove, pivot);
    }
  }

  /**
   * Rebalancing writes only priorities, and only those of tasks shown in the
   * bucket; the divider keeps its priority, so the pivot does not move.
   */
  lemma RebalanceTouchesOnlyShownPriorities(tasks: seq<Task>, dom: seq<int>)
    requires DividerPriorityNumeric(tasks)
    ensures var r := Rebalanced(tasks, dom);
      && SameIds(tasks, r)
      && (forall k :: 0 <= k < |tasks| ==> r[k].(priority := tasks[k].priority) == tasks[k])
      && (forall k :: 0 <= k < |tasks| && tasks[k].id !in dom ==> r[k] == tasks[k])
      && PriorityOf(r, BACKLOG_MARKER_ID) == PriorityOf(tasks, BACKLOG_MARKER_ID)
      && DividerPriorityNumeric(r) && Pivot(r) == Pivot(tasks)
  {
    var (above, below) := SplitAtDivider(dom);
    var pivot := Pivot(tasks);
    var mA := SegmentMap(tasks, above, true, pivot);
    var t1 := Apply(tasks, mA);
    var mB := SegmentMap(t1, below, false, pivot);
    assert Rebalanced(tasks, dom) == Apply(t1, mB);
    SegmentMapKeys(tasks, above, true, pivot);
    SegmentMapKeys(t1, below, false, pivot);
    ApplyTwice(tasks, mA, mB, above + below);
  }

  /** The priorities a rebalance leaves on the tasks of each segment. */
  lemma RebalancedPriorities(tasks: seq<Task>, dom: seq<int>, id: int)
    requires DividerPriorityNumeric(tasks) && Distinct(dom) && FindIndex(tasks, id).Some?
    ensures var (above, below) := SplitAtDivider(dom);
      var pivot := Pivot(tasks);
      var mA := SegmentMap(tasks, above, true, pivot);
      var mB := SegmentMap(Apply(tasks, mA), below, false, pivot);
      && (id in above ==> id in mA && PriorityOf(Rebalanced(tasks, dom), id) == Some(mA[id]))
      && (id in below ==> id in mB && PriorityOf(Rebalanced(tasks, dom), id) == Some(mB[id]))
      && (id in below ==> PriorityOf(Apply(tasks, mA), id) == PriorityOf(tasks, id))
  {
    var (above, below) := SplitAtDivider(dom);
    var pivot := Pivot(tasks);
    var mA := SegmentMap(tasks, above, true, pivot);
    var t1 := Apply(tasks, mA);
    var mB := SegmentMap(t1, below, false, pivot);
    SplitDisjoint(dom);
    SegmentMapKeys(tasks, above, true, pivot);
    SegmentMapKeys(t1, below, false, pivot);
    FindIndexSameIds(tasks, t1, id);
    ApplyPriorityOf(tasks, mA, id);
    ApplyPriorityOf(t1, mB, id);
  }

  /**
   * After a drop, every shown task above the divider sorts before it and
   * every shown task below sorts after it.
   */
  lemma RebalanceSeparatesAtDivider(tasks: seq<Task>, dom: seq<int>)
    requires DividerPriorityNumeric(tasks) && Distinct(dom)
    ensures var (above, below) := SplitAtDivider(dom);
      var r := Rebalanced(tasks, dom);
      && (forall id :: id in above && FindIndex(tasks, id).Some? ==>
            PriorityOf(r, id).Some? && PriorityOf(r, id).value < Pivot(tasks))
      && (forall id :: id in below && FindIndex(tasks, id).Some? ==>
            PriorityOf(r, id).Some? && PriorityOf(r, id).value > Pivot(tasks))
  {
    var (above, below) := SplitAtDivider(dom);
    var pivot := Pivot(tasks);
    var mA := SegmentMap(tasks, above, true, pivot);
    var t1 := Apply(tasks, mA);
    var mB := SegmentMap(t1, below, false, pivot);
    SegmentMapOnSide(tasks, above, true, pivot);
    SegmentMapOnSide(t1, below, false, pivot);
    forall id | FindIndex(tasks, id).Some?
      ensures id in above ==> id in mA && PriorityOf(Rebalanced(tasks, dom), id) == Some(mA[id])
      ensures id in below ==> id in mB && PriorityOf(Rebalanced(tasks, dom), id) == Some(mB[id])
    {
      RebalancedPriorities(tasks, dom, id);
    }
  }

  /** Every task of `shown` that `tasks` holds has a priority in `r`, increasing along `shown`. */
  ghost predicate ShownInOrder(tasks: seq<Task>, r: seq<Task>, shown: seq<int>) {
    forall j, k :: 0 <= j < k < |shown| && FindIndex(tasks, shown[j]).Some? && FindIndex(tasks, shown[k]).Some? ==>
      PriorityOf(r, shown[j]).Some? && PriorityOf(r, shown[k]).Some?
      && PriorityOf(r, shown[j]).value < PriorityOf(r, shown[k]).value
  }

  /** Every held task of `a` sorts before every held task of `b` in `r`. */
  ghost predicate Separated(tasks: seq<Task>, r: seq<Task>, a: seq<int>, b: seq<int>) {
    forall x, y :: x in a && y in b && FindIndex(tasks, x).Some? && FindIndex(tasks, y).Some? ==>
      PriorityOf(r, x).Some? && PriorityOf(r, y).Some? && PriorityOf(r, x).value < PriorityOf(r, y).value
  }

  /** Two ordered lists, the first wholly before the second, are ordered together. */
  lemma ShownInOrderConcat(tasks: seq<Task>, r: seq<Task>, a: seq<int>, b: seq<int>)
    requires ShownInOrder(tasks, r, a) && ShownInOrder(tasks, r, b) && Separated(tasks, r, a, b)
    ensures ShownInOrder(tasks, r, a + b)
  {
    var s := a + b;
    forall j, k | 0 <= j < k < |s| && FindIndex(tasks, s[j]).Some? && FindIndex(tasks, s[k]).Some?
      ensures PriorityOf(r, s[j]).Some? && PriorityOf(r, s[k]).Some?
              && PriorityOf(r, s[j]).value < PriorityOf(r, s[k]).value
    {
      if k < |a| {
        assert s[j] == a[j] && s[k] == a[k];
      } else if j >= |a| {
        assert s[j] == b[j - |a|] && s[k] == b[k - |a|];
      } else {
        assert s[j] in a && s[k] in b;
      }
    }
  }

  /** Within the active segment, rebalanced priorities follow the on-screen order. */
  lemma AboveFollowsScreenOrder(tasks: seq<Task>, dom: seq<int>)
    requires DividerPriorityNumeric(tasks) && Distinct(dom)
    requires SegmentReady(tasks, SplitAtDivider(dom).0, true, Pivot(tasks))
    ensures ShownInOrder(tasks, Rebalanced(tasks, dom), SplitAtDivider(dom).0)
  {
    var above := SplitAtDivider(dom).0;
    SplitDisjoint(dom);
    SegmentFollowsScreenOrder(tasks, above, true, Pivot(tasks));
    forall j, k | 0 <= j < k < |above| && FindIndex(tasks, above[j]).Some? && FindIndex(tasks, above[k]).Some?
      ensures var r := Rebalanced(tasks, dom);
        PriorityOf(r, above[j]).Some? && PriorityOf(r, above[k]).Some?
        && PriorityOf(r, above[j]).value < PriorityOf(r, above[k]).value
    {
      RebalancedPriorities(tasks, dom, above[j]);
      RebalancedPriorities(tasks, dom, above[k]);
    }
  }

  /** Within the backlog segment, rebalanced priorities follow the on-screen order. */
  lemma BelowFollowsScreenOrder(tasks: seq<Task>, dom: seq<int>)
    requires DividerPriorityNumeric(tasks) && Distinct(dom)
    requires SegmentReady(tasks, SplitAtDivider(dom).1, false, Pivot(tasks))
    ensures ShownInOrder(tasks, Rebalanced(tasks, dom), SplitAtDivider(dom).1)
  {
    var (above, below) := SplitAtDivider(dom);
    var pivot := Pivot(tasks);
    var t1 := Apply(tasks, SegmentMap(tasks, above, true, pivot));
    SplitDisjoint(dom);
    forall id | id in below
      ensures PriorityOf(t1, id) == PriorityOf(tasks, id)
    {
      SegmentMapKeys(tasks, above, true, pivot);
      ApplyPriorityOf(tasks, SegmentMap(tasks, above, true, pivot), id);
    }
    SegmentReadyTransfer(tasks, t1, below, false, pivot);
    SegmentFollowsScreenOrder(t1, below, false, pivot);
    forall j, k | 0 <= j < k < |below| && FindIndex(tasks, below[j]).Some? && FindIndex(tasks, below[k]).Some?
      ensures var r := Rebalanced(tasks, dom);
        PriorityOf(r, below[j]).Some? && PriorityOf(r, below[k]).Some?
        && PriorityOf(r, below[j]).value < PriorityOf(r, below[k]).value
    {
      RebalancedPriorities(tasks, dom, below[j]);
      RebalancedPriorities(tasks, dom, below[k]);
    }
  }

  /**
   * The central promise of a drag: when each segment is ready (a pure
   * reorder with no shared priority, or a crossing with its incumbents in
   * order), sorting the bucket by priority afterwards reproduces the
   * on-screen order with the divider ids removed.
   */
  lemma RebalancedFollowsScreenOrder(tasks: seq<Task>, dom: seq<int>)
    requires DividerPriorityNumeric(tasks) && Distinct(dom)
    requires SegmentReady(tasks, SplitAtDivider(dom).0, true, Pivot(tasks))
    requires SegmentReady(tasks, SplitAtDivider(dom).1, false, Pivot(tasks))
    ensures ShownInOrder(tasks, Rebalanced(tasks, dom), WithoutDividers(dom))
  {
    var split := SplitAtDivider(dom);
    AboveFollowsScreenOrder(tasks, dom);
    BelowFollowsScreenOrder(tasks, dom);
    RebalanceSeparatesAtDivider(tasks, dom);
    assert Separated(tasks, Rebalanced(tasks, dom), split.0, split.1);
    ShownInOrderConcat(tasks, Rebalanced(tasks, dom), split.0, split.1);
  }
}
