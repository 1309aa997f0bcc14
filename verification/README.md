# Intervals and interval series, in Dafny

A model of the two core classes of the `net.adamjak.intervals` library:

- `Interval<T>`: an immutable closed interval whose edges may be `null`, meaning infinity.
  It offers point positions, the thirteen-way `compareToOther` classification, the
  containment and overlap predicates built on it, and `overlap`, `union` and `cutBy`.
- `IntervalsSeries<T,V>`: a map from intervals to values that refuses a new key overlapping
  a stored one. It has lookups, sorted and gap views, extreme edges, search by point, and
  the editing operations `changeEdges`, `erase` and `insertNew`.

Edges are `Option<int>`, with `None` for `null`, because the library's tests use `Integer`
edges. An `Interval` is a pair of edges with start <= end whenever both are finite, which is
what both constructors guarantee. A `null` argument becomes an `Option` parameter. A thrown
exception becomes `Result.Failure` with one of three errors:

- `NullArgument` for `ArgumentNullException`;
- `IllegalOverlap` for `IllegalOvelapException` (the library's spelling);
- `NullDereference` for a `NullPointerException` raised by calling a method on an infinite
  edge.

The series is an immutable `map<Interval, V>`. Each mutating Java method becomes a function
that returns the new map.

Files:

- `base.dfy` (`Base`): `Option`, `Error`, `Result`.
- `interval.dfy` (`Intervals`): `Interval.java`.
- `interval_facts.dfy` (`IntervalFacts`): what the classification means on points, and the
  algebra of `overlap`, `union` and `cutBy`.
- `series.dfy` (`IntervalsSeries`): the map part of `IntervalsSeries.java`, from
  `containsInterval` to `getOverlapedWith`.
- `series_views.dfy` (`SeriesViews`): the comparator, sorted keys, gaps, extremes, extent and
  search by point.
- `series_edit.dfy` (`SeriesEdit`): `changeEdges`, `erase` and `insertNew`.

The series invariant is `NonOverlapping`: two distinct keys share at most an edge point.
`putValue` checks each stored key `k` with `k.isOverlap(new)`, which is enough to keep the
invariant. `isOverlap` is not symmetric when one side is a single point, because of a
switch fall-through in `compareToOther`. For that reason every theorem about the sorted
order, gaps, end extremes, extent, point search and `erase` assumes `NoSinglePoints` as well
as `NonOverlapping`. For each group a lemma exhibits a series built with `putValue`, free of
overlaps, on which the statement fails because of a single-point key:

- `SinglePointAfterInfiniteEnd`: sorted order, `getEndMaximum` and extent;
- `EndMinimumWithSinglePoint`: `getEndMinimum`;
- `GapsWithSinglePoint`: gaps;
- `IntervalByPointSinglePointOnEdge`: point search;
- `EraseKeepsSinglePointKey`: `erase`.

## Model

| member | source | states |
|---|---|---|
| Intervals.Make | src/net/adamjak/intervals/Interval.java:230-239 | The constructor keeps the edges as given when either is infinite; when both are finite it keeps the same two values, in ascending order. |
| IntervalFacts.MakeOrdersEdges | src/net/adamjak/intervals/Interval.java:230-239 | Giving the finite edges in either order builds the same interval, whose start is the smaller value and whose end is the larger. |
| IntervalFacts.MakeRoundTrip | src/net/adamjak/intervals/Interval.java:209-239 | Rebuilding an interval from its own edges gives it back. |
| Intervals.IsEqualStart | src/net/adamjak/intervals/Interval.java:283-291 | True exactly when both starts are infinite, or both are finite and equal. |
| Intervals.IsEqualEnd | src/net/adamjak/intervals/Interval.java:299-307 | True exactly when both ends are infinite, or both are finite and equal. |
| Intervals.Equals | src/net/adamjak/intervals/Interval.java:772-781 | False for `null`; otherwise true exactly when the other interval has the same two edges. |
| Intervals.Minimum | src/net/adamjak/intervals/Interval.java:797-809 | Infinite exactly when either edge is infinite; otherwise one of the two edges and no larger than either. |
| Intervals.Maximum | src/net/adamjak/intervals/Interval.java:811-823 | Infinite exactly when either edge is infinite; otherwise one of the two edges and no smaller than either. |
| Intervals.Locate | src/net/adamjak/intervals/Interval.java:315-365 | `Before`/`After` exactly when the point lies beyond a finite start or end. `AtStart`/`AtEnd` exactly when it equals that edge of an interval that is not a single point. `Between` exactly when it is inside, or is the single point itself. |
| Intervals.PositionAgainstInterval | src/net/adamjak/intervals/Interval.java:315-365 | Fails with `NullArgument` exactly for a `null` point; otherwise the five-way answer of `Locate`, so `Between` exactly when the point is held by the interval and is not one of its edges, unless the interval is a single point. |
| Intervals.Compare | src/net/adamjak/intervals/Interval.java:377-485 | Every pair of intervals, finite or infinite, is classified, and never as `Undefined`. |
| Intervals.Combine | src/net/adamjak/intervals/Interval.java:386-421 | The switch for a compared interval with two finite edges never answers `Undefined`. It answers `EndAfter` exactly when the start lies on the reference's end, or when the start is `AtStart` or `Between` and the end is `Before` or `AtStart`: the arms without `break` fall through to `case AtEnd`. |
| Intervals.CompareToOther | src/net/adamjak/intervals/Interval.java:377-485 | A `null` argument fails with `NullArgument`; any other argument gets a defined classification. |
| IntervalFacts.CompareProbesBefore | src/net/adamjak/intervals/Interval.java:377-485 | The classifications of the five probes that start before the reference. |
| IntervalFacts.CompareProbesStart | src/net/adamjak/intervals/Interval.java:377-485 | The classifications of the three probes that start on the reference's start. |
| IntervalFacts.CompareProbesLater | src/net/adamjak/intervals/Interval.java:377-485 | The classifications of the five probes that start inside the reference or after it. |
| IntervalFacts.SinglePointAtStartIsEndAfter | src/net/adamjak/intervals/Interval.java:400-419 | A single point on the start of a longer reference falls through to `EndAfter`: the reference does not see it as an overlap, but the point sees the reference as one. |
| IntervalFacts.FullyInfiniteProbeReadsInside | src/net/adamjak/intervals/Interval.java:475-482 | A probe infinite on both sides is classified by where the reference lies in it. A finite reference therefore `completelyContains` it and is not `isCompletelyInside` it. |
| IntervalFacts.StartEndMeaning | src/net/adamjak/intervals/Interval.java:377-485 | `StartEnd` holds exactly when the probe equals a reference that is not a single point. |
| Intervals.IsCompletelyInside | src/net/adamjak/intervals/Interval.java:496-502 | No interval lies completely inside itself, and `null` gives false. |
| Intervals.IsCompletelyInsideOrAtEdge | src/net/adamjak/intervals/Interval.java:518-524 | An interval lies inside itself at its edges exactly when it is not a single point. |
| Intervals.CompletelyContains | src/net/adamjak/intervals/Interval.java:534-540 | An interval completely contains itself exactly when it is a single point. |
| Intervals.CompletelyContainsOrAtEdge | src/net/adamjak/intervals/Interval.java:556-562 | Every interval contains itself at its edges. |
| Intervals.IsOverlap | src/net/adamjak/intervals/Interval.java:572-579 | Every interval overlaps itself. |
| IntervalFacts.IsOverlapMeaning | src/net/adamjak/intervals/Interval.java:572-579 | Against a single-point reference, `isOverlap` holds exactly when the other interval contains that point. Otherwise it holds exactly when each interval starts strictly before the other ends, so the two share more than an edge. |
| IntervalFacts.IsOverlapSymmetric | src/net/adamjak/intervals/Interval.java:572-579 | Between intervals that are not single points, `isOverlap` is symmetric, and it is false for separated intervals. |
| IntervalFacts.TouchesMeaning | src/net/adamjak/intervals/IntervalsSeries.java:253-262 | The edge-inclusive test, a classification other than `BeforeBefore` and `AfterAfter`, holds exactly when the closed intervals share a point. |
| IntervalFacts.NotOverlapSeparates | src/net/adamjak/intervals/Interval.java:572-579 | When `isOverlap` is false from the reference side, the two intervals share at most an edge. |
| IntervalFacts.SeparatedNotOverlap | src/net/adamjak/intervals/Interval.java:572-579 | Intervals that share at most an edge do not overlap, unless the reference is a single point. |
| IntervalFacts.IsCompletelyInsideMeaning | src/net/adamjak/intervals/Interval.java:496-502 | True exactly when this lies strictly inside the other and the other is not infinite on both sides. |
| IntervalFacts.IsCompletelyInsideOrAtEdgeMeaning | src/net/adamjak/intervals/Interval.java:518-524 | Against a fully infinite other, true only for the fully infinite interval. For a single point, true only strictly inside. Otherwise true exactly for inclusion. |
| IntervalFacts.CompletelyContainsMeaning | src/net/adamjak/intervals/Interval.java:534-540 | True exactly when the other lies strictly inside, or is this single point itself, or is fully infinite against a reference with two finite edges. |
| IntervalFacts.CompletelyContainsOrAtEdgeMeaning | src/net/adamjak/intervals/Interval.java:556-562 | True exactly for inclusion, with two exceptions: a fully infinite other always qualifies, and a single point on an edge of a longer reference never does. |
| IntervalFacts.NullArgumentIsNoOverlap | src/net/adamjak/intervals/Interval.java:496-671 | Against `null`: every predicate is false, `overlap` and `union` are `null`, `cutBy` returns this, and `compareToOther` fails. |
| Intervals.OverlapStart | src/net/adamjak/intervals/Interval.java:600-606 | The start `overlap` builds is one of the two starts, at or after both, and infinite only when both are. |
| Intervals.OverlapEnd | src/net/adamjak/intervals/Interval.java:608-614 | The end `overlap` builds is one of the two ends, at or before both, and infinite only when both are. |
| Intervals.Overlap | src/net/adamjak/intervals/Interval.java:588-617 | `null` exactly when `isOverlap` is false. |
| IntervalFacts.OverlapEdges | src/net/adamjak/intervals/Interval.java:588-617 | For overlapping intervals the result is built from the later start and the earlier end. |
| IntervalFacts.OverlapIsIntersection | src/net/adamjak/intervals/Interval.java:588-617 | For overlapping intervals the result holds exactly the points both intervals hold. |
| Intervals.Union | src/net/adamjak/intervals/Interval.java:626-639 | `null` exactly when `isOverlap` is false. |
| IntervalFacts.UnionEdges | src/net/adamjak/intervals/Interval.java:626-639 | For overlapping intervals the result has the smaller start and the larger end, and an infinite edge wins. |
| IntervalFacts.UnionIsJoin | src/net/adamjak/intervals/Interval.java:626-639 | For overlapping intervals the result holds exactly the points either interval holds. |
| Intervals.CutBy | src/net/adamjak/intervals/Interval.java:651-671 | A non-overlapping or `null` argument leaves this unchanged; a success returns at most two pieces. |
| IntervalFacts.CutByCases | src/net/adamjak/intervals/Interval.java:651-671 | The outcome for each shape of the overlap: an infinite overlap edge fails; a single-point overlap leaves this; an overlap equal to this leaves nothing; an overlap strictly inside splits this in two; otherwise one edge moves, and an infinite start on this fails. |
| IntervalFacts.CutByRemovesOverlap | src/net/adamjak/intervals/Interval.java:651-671 | For every overlapping argument on which `cutBy` succeeds, single-point overlaps and an overlap equal to this included: every piece lies in this and holds no point strictly inside the overlap, and every point of this outside the overlap is kept by some piece. |
| IntervalsSeries.ContainsInterval | src/net/adamjak/intervals/IntervalsSeries.java:102-107 | Fails exactly for `null`; otherwise true exactly when the interval is a key. |
| IntervalsSeries.ContainsValue | src/net/adamjak/intervals/IntervalsSeries.java:115-117 | True exactly when some key maps to the value. |
| IntervalsSeries.GetValue | src/net/adamjak/intervals/IntervalsSeries.java:128-133 | Fails exactly for `null`; otherwise the key's value, and `null` exactly when the interval is not a key. |
| IntervalsSeries.PutValue | src/net/adamjak/intervals/IntervalsSeries.java:150-164 | `null` arguments fail. A present key gets the new value, with no overlap check, and the old value is returned. A new key overlapping a stored one fails with `IllegalOverlap`. Otherwise the key is added, one more than before, and nothing else changes. |
| IntervalsSeries.PutValueKeepsNonOverlapping | src/net/adamjak/intervals/IntervalsSeries.java:150-164 | A successful `putValue` keeps the series free of overlaps. |
| IntervalsSeries.Remove | src/net/adamjak/intervals/IntervalsSeries.java:175-180 | Fails exactly for `null`. Otherwise it deletes the key, keeps the values of the other keys, and returns the old value, which is `null` exactly when the key was absent. |
| IntervalsSeries.PutThenRemove | src/net/adamjak/intervals/IntervalsSeries.java:150-180 | Removing a key that `putValue` has just added gives back the series and the value. |
| IntervalsSeries.OverlapsAny | src/net/adamjak/intervals/IntervalsSeries.java:243-250 | The edge-exclusive scan finds an overlap with any interval that is already a key. |
| IntervalsSeries.TouchesAny | src/net/adamjak/intervals/IntervalsSeries.java:252-261 | The edge-inclusive scan finds a touching key for any interval that is already a key. |
| IntervalsSeries.IsOverlapWith | src/net/adamjak/intervals/IntervalsSeries.java:232-262 | Fails exactly for `null`. Without edges, true exactly when some key overlaps the interval on points. With edges, true exactly when some key shares a point with it. |
| IntervalsSeries.GetOverlapedWith | src/net/adamjak/intervals/IntervalsSeries.java:278-331 | Fails exactly for `null`; otherwise exactly the stored keys that pass the same test as `isOverlapWith`. |
| IntervalsSeries.OverlapMeaningForAll | src/net/adamjak/intervals/IntervalsSeries.java:244-262 | Both per-key tests, stated on points, for every stored key. |
| IntervalsSeries.IsOverlapWithAgreesWithGetOverlapedWith | src/net/adamjak/intervals/IntervalsSeries.java:232-331 | `isOverlapWith` answers yes exactly when `getOverlapedWith` finds some key. |
| SeriesViews.NullableCompare | src/net/adamjak/intervals/IntervalsSeries.java:687-701 | Answers -1, 0 or 1. It is 0 exactly for equal edges and -1 exactly when the first comes first, with `null` first. |
| SeriesViews.KeyCompare | src/net/adamjak/intervals/IntervalsSeries.java:357-370 | The ascending comparator answers -1, 0 or 1. It is 0 only for equal intervals, so the `TreeSet` keeps every key; -1 exactly when ordered by start, then end. |
| SeriesViews.KeyLessIsStrictTotalOrder | src/net/adamjak/intervals/IntervalsSeries.java:357-370 | The comparator's order is irreflexive, asymmetric, transitive and total. |
| SeriesViews.LeastKeyExists | src/net/adamjak/intervals/IntervalsSeries.java:392-394 | Every non-empty key set has a least key in the comparator's order. |
| SeriesViews.LeastKey | src/net/adamjak/intervals/IntervalsSeries.java:703-710 | The first element of the sorted set is a key, and it comes before every other key. |
| SeriesViews.SortedKeys | src/net/adamjak/intervals/IntervalsSeries.java:392-394 | The `TreeSet` iteration holds every key exactly once, in strictly ascending comparator order. |
| SeriesViews.Reverse | src/net/adamjak/intervals/IntervalsSeries.java:373-387 | The descending comparator, which negates the ascending one, reads the ascending sequence backwards. |
| SeriesViews.GetIntervalsSorted | src/net/adamjak/intervals/IntervalsSeries.java:351-395 | Every key once, in strictly ascending or strictly descending order, as requested. |
| SeriesViews.SortedKeysFollowOneAnother | src/net/adamjak/intervals/IntervalsSeries.java:351-395 | Under `NonOverlapping` and `NoSinglePoints`, every sorted key ends at or before the start of every later one. |
| SeriesViews.GapsOf | src/net/adamjak/intervals/IntervalsSeries.java:417-425 | The loop adds at most one gap per consecutive pair of keys. |
| SeriesViews.GapsOfMembers | src/net/adamjak/intervals/IntervalsSeries.java:417-425 | The gaps are exactly the intervals from a key's end to the next key's start, where the end comes first. |
| SeriesViews.Gaps | src/net/adamjak/intervals/IntervalsSeries.java:409-427 | No gaps for at most one key, and fewer gaps than keys. |
| SeriesViews.GapAtUncovered | src/net/adamjak/intervals/IntervalsSeries.java:417-425 | Over keys that follow one another, no key holds a point strictly inside the gap after a key. |
| SeriesViews.GapsAreUncovered | src/net/adamjak/intervals/IntervalsSeries.java:409-427 | Under `NonOverlapping` and `NoSinglePoints`, no key holds a point strictly inside a gap. |
| SeriesViews.GapsOfCoverUncovered | src/net/adamjak/intervals/IntervalsSeries.java:417-425 | Over keys that follow one another, a point that no key holds, with a key ending before it and a key starting after it, lies strictly inside some gap. |
| SeriesViews.GapsCoverUncovered | src/net/adamjak/intervals/IntervalsSeries.java:409-427 | Under `NonOverlapping` and `NoSinglePoints`, every point that no key holds and that has keys on both sides lies strictly inside a gap. |
| SeriesViews.GapsWithSinglePoint | src/net/adamjak/intervals/IntervalsSeries.java:409-427 | `putValue` builds {(0,2):1, (5,+inf):2, (5,5):3}, which has no overlaps. Its gaps are (2,5) and (-inf,5), and the second holds the point 1 of the key (0,2). |
| SeriesViews.StartMinimum | src/net/adamjak/intervals/IntervalsSeries.java:435-443 | `null` for an empty series; otherwise the start of some key, at or before every start (`null` first). |
| SeriesViews.StartMaximum | src/net/adamjak/intervals/IntervalsSeries.java:467-475 | `null` for an empty series; otherwise the start of some key, at or after every start. |
| SeriesViews.EndMinimum | src/net/adamjak/intervals/IntervalsSeries.java:451-459 | `null` for an empty series; otherwise the end of some key. |
| SeriesViews.EndMaximum | src/net/adamjak/intervals/IntervalsSeries.java:483-491 | `null` for an empty series; otherwise the end of some key. |
| SeriesViews.EndExtremesUnderInvariant | src/net/adamjak/intervals/IntervalsSeries.java:451-491 | Under `NonOverlapping` and `NoSinglePoints`, `getEndMinimum` is at or before every end and `getEndMaximum` is at or after every end (`null` last). |
| SeriesViews.EndMinimumNeedsInvariant | src/net/adamjak/intervals/IntervalsSeries.java:451-459 | Without the invariant the first sorted key need not end first: for (1,100) and (2,3) the answers are 100 and 3. |
| SeriesViews.EndMinimumWithSinglePoint | src/net/adamjak/intervals/IntervalsSeries.java:451-459 | `putValue` accepts (5,5) after (5,+inf), and the series has no overlaps. Its `getEndMinimum` is +inf, the end of the first sorted key, although (5,5) ends at 5. |
| SeriesViews.SinglePointAfterInfiniteEnd | src/net/adamjak/intervals/IntervalsSeries.java:351-500 | `putValue` accepts (5,5) after (5,+inf), and the series has no overlaps. Yet the sorted keys are (5,+inf), (5,5), the first not ending by the second's start; `getEndMaximum` is 5 although (5,+inf) never ends; and the extent (5,5) does not hold (5,+inf). |
| SeriesViews.Extent | src/net/adamjak/intervals/IntervalsSeries.java:498-500 | The extent of an empty series is infinite on both sides. |
| SeriesViews.ExtentCoversKeys | src/net/adamjak/intervals/IntervalsSeries.java:498-500 | Under `NonOverlapping` and `NoSinglePoints`, every key lies inside the extent, and each edge of the extent is an edge of some key. |
| SeriesViews.ScanPoint | src/net/adamjak/intervals/IntervalsSeries.java:543-558 | The do-while loop collects only keys of the sequence that hold the point. |
| SeriesViews.ScanPointFindsAll | src/net/adamjak/intervals/IntervalsSeries.java:543-558 | Over proper keys that share at most edges, the loop finds exactly the keys holding the point: edges count with `includeEdge`, and only the interior counts without it. |
| SeriesViews.IntervalByPoint | src/net/adamjak/intervals/IntervalsSeries.java:524-560 | An empty series answers nothing, even for `null`; otherwise `null` fails with `NullArgument`. Every key answered is a key holding the point. |
| SeriesViews.IntervalByPointSinglePointOnEdge | src/net/adamjak/intervals/IntervalsSeries.java:524-560 | On {(10,20):1, (20,20):2}, which `putValue` builds and which has no overlaps, the search for 20 without edges answers (20,20), which does not hold 20 strictly inside. |
| SeriesViews.IntervalByPointFindsAll | src/net/adamjak/intervals/IntervalsSeries.java:524-560 | Under `NonOverlapping` and `NoSinglePoints`, the answer is exactly the keys holding the point, counting edges only with `includeEdge`. This includes the early exit for a point before the first key. |
| SeriesEdit.ChangeEdges | src/net/adamjak/intervals/IntervalsSeries.java:608-626 | As written. `null` arguments fail; an absent key changes nothing and answers false. For a present key, the answer is true, with the pair moved to the replacement, exactly when the replacement overlaps no other key. False means the series is unchanged. A failure is `NullArgument` or `IllegalOverlap`, and `IllegalOverlap` comes exactly when both the replacement and the current key overlap some remaining key. |
| SeriesEdit.ChangeEdgesRestoring | src/net/adamjak/intervals/IntervalsSeries.java:596-626 | With the rollback the documentation promises, only `null` arguments fail. The answer is true exactly when the key is present and the replacement overlaps no other key; then the pair moves; otherwise the series is unchanged. |
| SeriesEdit.ChangeEdgesRollbackRefused | src/net/adamjak/intervals/IntervalsSeries.java:618-621 | For {(10,20):1, (20,20):2}, moving (10,20) to (15,25) fails with `IllegalOverlap` on the rollback, where the restoring version answers false and keeps the series. |
| SeriesEdit.RollbackRefusedWhenCurrentOverlaps | src/net/adamjak/intervals/IntervalsSeries.java:618-621 | Whenever another key overlaps both the replacement and the current key, the written rollback fails and the restoring one keeps the series. |
| SeriesEdit.RollbackRefusedWithoutCommonKey | src/net/adamjak/intervals/IntervalsSeries.java:618-621 | For {(10,20):1, (20,20):2, (30,40):3}, moving (10,20) to (35,36) fails on the rollback although no remaining key overlaps both intervals, so the condition of `RollbackRefusedWhenCurrentOverlaps` is not necessary. |
| SeriesEdit.ChangeEdgesKeepsNonOverlapping | src/net/adamjak/intervals/IntervalsSeries.java:608-626 | Any successful `changeEdges` on a series free of overlaps leaves it free of overlaps, single-point keys or not. |
| SeriesEdit.ChangeEdgesAgreesWithoutSinglePoints | src/net/adamjak/intervals/IntervalsSeries.java:608-626 | Without single-point keys the written and restoring versions agree, and the result keeps the invariant. |
| SeriesEdit.Pieces | src/net/adamjak/intervals/IntervalsSeries.java:665-683 | At most two pieces remain of an overlapped key. |
| SeriesEdit.PiecesFacts | src/net/adamjak/intervals/IntervalsSeries.java:665-683 | For a proper overlap, each piece is a proper part of the key, different from it, and separated from the erased interval; distinct pieces are separated. |
| SeriesEdit.PiecesCover | src/net/adamjak/intervals/IntervalsSeries.java:665-683 | Every point of the key outside the erased interval is held by some piece. |
| SeriesEdit.PutAll | src/net/adamjak/intervals/IntervalsSeries.java:669-682 | A success adds exactly the pieces, gives them the value and keeps the other keys' values. A `null` value fails for a non-empty list. Any failure is `NullArgument` or `IllegalOverlap`. |
| SeriesEdit.PutAllFresh | src/net/adamjak/intervals/IntervalsSeries.java:669-682 | Putting new, mutually non-overlapping intervals that overlap no stored key succeeds. |
| SeriesEdit.EraseStep | src/net/adamjak/intervals/IntervalsSeries.java:661-683 | One pass keeps every key other than the visited key and its pieces, and adds nothing else. |
| SeriesEdit.EraseAll | src/net/adamjak/intervals/IntervalsSeries.java:659-684 | A successful loop keeps every key it was not told to visit. |
| SeriesEdit.Erase | src/net/adamjak/intervals/IntervalsSeries.java:655-685 | `null` fails with `NullArgument`; with nothing overlapped the series is unchanged. |
| SeriesEdit.EraseStepCarves | src/net/adamjak/intervals/IntervalsSeries.java:661-683 | One pass over an unvisited overlapped key succeeds and keeps the loop invariant, with the key marked visited. |
| SeriesEdit.EraseAllCarves | src/net/adamjak/intervals/IntervalsSeries.java:659-684 | The loop keeps its invariant over any list of distinct unvisited overlapped keys. |
| SeriesEdit.EraseCarves | src/net/adamjak/intervals/IntervalsSeries.java:655-685 | Under the invariant, with no single-point key or erased interval, `erase` succeeds in any iteration order. Keys it does not overlap keep their value, overlapped keys are gone, and their pieces carry their value. Nothing else is present, no key overlaps the erased interval, and the invariant holds again. |
| SeriesEdit.EraseOnPoints | src/net/adamjak/intervals/IntervalsSeries.java:655-685 | Under the assumptions of `EraseCarves`, `erase` succeeds. Afterwards no key holds a point strictly inside the erased interval, and every point a key held outside it is still held, by a key with the same value. |
| SeriesEdit.InsertNew | src/net/adamjak/intervals/IntervalsSeries.java:636-645 | `null` arguments fail with `NullArgument`; on success the interval maps to the value. |
| SeriesEdit.InsertNewPlaces | src/net/adamjak/intervals/IntervalsSeries.java:636-645 | Under the same assumptions as `erase`, `insertNew` succeeds. The interval carries the value, every other key is what `erase` left, and the invariant holds again. |
| SeriesEdit.EraseEverythingEmpties | src/test/java/net/adamjak/intervals/IntervalsSeries02Test.java:236-240 | Erasing the interval infinite on both sides empties a series that has no overlaps, no single-point keys and only finite starts, in any iteration order. |
| SeriesEdit.EraseEverythingKeepsSinglePoint | src/net/adamjak/intervals/IntervalsSeries.java:661-664 | Erasing the interval infinite on both sides keeps the single-point key (15,15), because its overlap is a single point and is skipped. |
| SeriesEdit.EraseKeepsSinglePointKey | src/net/adamjak/intervals/IntervalsSeries.java:647-664 | On {(10,20):1, (20,20):2}, which `putValue` builds, erasing (15,25) gives {(10,15):1, (20,20):2} in both iteration orders, so (20,20) keeps a point strictly inside the erased interval. |
| SeriesEdit.EraseSinglePointIsNoOp | src/net/adamjak/intervals/IntervalsSeries.java:661-664 | Erasing a single point changes nothing, because every overlap found is that point and is skipped. |
| SeriesEdit.EraseInfiniteStartsFails | src/net/adamjak/intervals/IntervalsSeries.java:661-662 | Erasing (null,5) from a series holding (null,10) dereferences the overlap's infinite start. |
| SeriesEdit.InsertNewSinglePointInsideRefused | src/net/adamjak/intervals/IntervalsSeries.java:636-664 | Inserting (15,15) into {(10,20)} is refused with `IllegalOverlap`, because `erase` skips the single-point overlap. |

## Left out

- `getLength`, `getTotalLength` and `hasLength` are not modelled. They compute `Double`
  lengths through reflection on the edge class, and there is no floating point here.
- The copy constructor, `clone` and `cloneEdge` are not modelled. Values are immutable here,
  so a copy is the value itself.
- `hashCode` and `toString` are not modelled: they are presentation only.
- `DateEdge` and edge types other than integers are not modelled. Edges are unbounded
  integers, as in the library's `Integer` tests.
- `size`, `isEmpty`, `clear`, `getIntevals`, `getValues`, `getPairs` and the no-argument
  `getIntervalsSorted` are left out. They are direct reads of the map (`|s|`, `s.Keys`,
  `s.Values`, the empty map), and the unmodifiable wrappers change nothing in a value model.
- `containsValue(null)` answers false in the library. Values here are never `null`, so
  that case is not modelled.
- `getIntervalsSorted(null)` throws `NullPointerException` from the switch on the sort order.
  The sort order here is never `null`, so that case is not modelled.
- The default branch of `getIntervalsSorted`, which throws `IllegalArgumentException`, cannot
  be reached with a two-value enum.
- The iteration order of the `HashMap` that `erase` walks is a parameter `order`: any list
  that holds each overlapped key once.
- The `getOverlapedWith` list is returned as a set. It never repeats a key, and its order is
  the `HashMap` order.
- The series left behind when an exception interrupts `changeEdges`, `erase` or `insertNew`
  is not modelled: a failure carries only the error.
- `getGaps` compares with `== -1`. That matches the "first comes first" order because
  `Integer.compareTo` answers exactly -1, 0 or 1. An edge type whose `compareTo` answers other
  negative numbers is not modelled.
- `getIntervalByPoint` is modelled for every input by `IntervalByPoint`. With a single-point
  key, or with keys that overlap, its result is characterised only under `NonOverlapping` and
  `NoSinglePoints`, since the do-while loop stops at the first key holding the point inside.
  `IntervalByPointSinglePointOnEdge` shows a single-point key breaking the characterisation.
- `isEqualStart(null)` and `isEqualEnd(null)` throw `NullPointerException` on `other.start`
  and `other.end`. `IsEqualStart` and `IsEqualEnd` take a present interval, so that case is
  not modelled.
- SeriesViews.GapsOf: the function's own contract only bounds the count. Its meaning is
  `GapsOfMembers`, `GapsAreUncovered` and `GapsCoverUncovered`.
- SeriesViews.Gaps: the function's own contract only bounds the count. Its meaning is
  `GapsAreUncovered` and `GapsCoverUncovered`, under `NonOverlapping` and `NoSinglePoints`.
- SeriesViews.EndMinimum: extremal only under `NonOverlapping` and `NoSinglePoints`
  (`EndExtremesUnderInvariant`). `EndMinimumNeedsInvariant` shows that the code does not
  promise it otherwise.
- SeriesViews.EndMaximum: extremal only under `NonOverlapping` and `NoSinglePoints`, as for `EndMinimum`. `SinglePointAfterInfiniteEnd`
  shows it reading 5 while a key ends at +inf.
- SeriesViews.SortedKeysFollowOneAnother: under `NonOverlapping` and `NoSinglePoints` only. `SinglePointAfterInfiniteEnd` sorts
  (5,+inf) before (5,5), and (5,+inf) does not end by the start of (5,5).
- SeriesViews.GapsAreUncovered: under `NonOverlapping` and `NoSinglePoints` only. `GapsWithSinglePoint` gives a gap (-inf,5)
  that holds the point 1 of the key (0,2).
- SeriesViews.GapsCoverUncovered: under `NonOverlapping` and `NoSinglePoints` only, because its proof rests on
  `SortedKeysFollowOneAnother`.
- SeriesViews.ExtentCoversKeys: under `NonOverlapping` and `NoSinglePoints` only. `SinglePointAfterInfiniteEnd` has the extent
  (5,5), which does not hold (5,+inf).
- SeriesViews.ScanPoint: the function's own contract says only that what it finds holds the
  point. Completeness is `ScanPointFindsAll`, for keys that share at most edges.
- SeriesEdit.EraseCarves: proved only for series without single-point keys, for a proper
  erased interval, and when no overlap has an infinite start. `EraseSinglePointIsNoOp`,
  `EraseInfiniteStartsFails` and `InsertNewSinglePointInsideRefused` show the other cases.
- SeriesEdit.EraseOnPoints: under the same assumptions as `EraseCarves`. It fails for a
  single-point key: `EraseKeepsSinglePointKey` keeps (20,20) after erasing (15,25).
- SeriesEdit.InsertNewPlaces: under the same assumptions as `EraseCarves`.

## Findings

| source | as written | input that shows it | evidently intended | confidence | as-written member | corrected member |
|---|---|---|---|---|---|---|
| src/net/adamjak/intervals/IntervalsSeries.java:618-621 | When the replacement overlaps, the removed pair is put back with `putValue`, which runs the overlap check again. A single-point key on an edge of the old interval makes that check refuse, so `IllegalOvelapException` is thrown and the old pair is lost. | series {(10,20):1, (20,20):2}, `changeEdges((10,20), (15,25))` | The pair is restored as it was, the series is unchanged, and the answer is false, as the method's documentation says. | not executed | SeriesEdit.ChangeEdges | SeriesEdit.ChangeEdgesRestoring |
