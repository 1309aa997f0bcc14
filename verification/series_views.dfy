/** The read-only views of `IntervalsSeries`: the keys sorted by the start-then-end comparator, the
    gaps between consecutive keys, the extreme edges, the extent, and the search by point. */
module SeriesViews {
  import opened Base
  import opened Intervals
  import opened IntervalsSeries

  // ---------------------------------------------------------------------------------------------
  // The comparator of the sorted view

  /** `null` sorts before every present edge; present edges compare as integers. */
  predicate NullFirstLess(a: Edge, b: Edge) {
    (a.None? && b.Some?) || (a.Some? && b.Some? && a.value < b.value)
  }

  /** The private `nullableCompare`, with `Integer.compareTo` (which answers -1, 0 or 1) on present
      edges. */
  function NullableCompare(a: Edge, b: Edge): (r: int)
    ensures -1 <= r <= 1
    ensures r == 0 <==> a == b
    ensures r == -1 <==> NullFirstLess(a, b)
    ensures r == 1 <==> NullFirstLess(b, a)
  {
    if a.None? then (if b.None? then 0 else -1)
    else if b.None? then 1
    else if a.value < b.value then -1
    else if a.value == b.value then 0
    else 1
  }

  /** The order of the ascending comparator: by start, ties broken by end, `null` first in both. */
  predicate KeyLess(a: Interval, b: Interval) {
    NullFirstLess(a.start, b.start) || (a.start == b.start && NullFirstLess(a.end, b.end))
  }

  /** The ascending comparator of `getIntervalsSorted`: zero only for equal intervals, so the TreeSet
      keeps every key. */
  function KeyCompare(a: Interval, b: Interval): (r: int)
    ensures -1 <= r <= 1
    ensures r == 0 <==> a == b
    ensures r == -1 <==> KeyLess(a, b)
    ensures r == 1 <==> KeyLess(b, a)
  {
    var c := NullableCompare(a.start, b.start);
    if c == 0 then NullableCompare(a.end, b.end) else c
  }

  /** The comparator orders intervals strictly and totally. */
  lemma KeyLessIsStrictTotalOrder(a: Interval, b: Interval, c: Interval)
    ensures !KeyLess(a, a)
    ensures KeyLess(a, b) ==> !KeyLess(b, a)
    ensures KeyLess(a, b) && KeyLess(b, c) ==> KeyLess(a, c)
    ensures a == b || KeyLess(a, b) || KeyLess(b, a)
  {
  }

  /** Every non-empty set of intervals has a least one in the comparator's order. */
  lemma {:induction false} LeastKeyExists(ks: set<Interval>)
    requires ks != {}
    ensures exists m | m in ks :: forall k | k in ks && k != m :: KeyLess(m, k)
    decreases |ks|
  {
    var x :| x in ks;
    var rest := ks - {x};
    if rest == {} {
      assert ks == {x};
    } else {
      LeastKeyExists(rest);
      var m :| m in rest && forall k | k in rest && k != m :: KeyLess(m, k);
      if KeyLess(x, m) {
        forall k | k in ks && k != x
          ensures KeyLess(x, k)
        {
          KeyLessIsStrictTotalOrder(x, m, k);
        }
      } else {
        KeyLessIsStrictTotalOrder(m, x, x);
        assert forall k | k in ks && k != m :: KeyLess(m, k);
      }
    }
  }

  /** At most one interval of a set is below all the others. */
  lemma LeastKeyUnique(ks: set<Interval>)
    ensures forall m1, m2 |
        && m1 in ks && (forall k | k in ks && k != m1 :: KeyLess(m1, k))
        && m2 in ks && (forall k | k in ks && k != m2 :: KeyLess(m2, k))
      :: m1 == m2
  {
    forall m1, m2 |
        && m1 in ks && (forall k | k in ks && k != m1 :: KeyLess(m1, k))
        && m2 in ks && (forall k | k in ks && k != m2 :: KeyLess(m2, k))
      ensures m1 == m2
    {
      if m1 != m2 {
        KeyLessIsStrictTotalOrder(m1, m2, m1);
      }
    }
  }

  /** The first element of the sorted view of a non-empty key set. */
  function LeastKey(ks: set<Interval>): (m: Interval)
    requires ks != {}
    ensures m in ks
    ensures forall k | k in ks && k != m :: KeyLess(m, k)
  {
    LeastKeyExists(ks);
    LeastKeyUnique(ks);
    var m :| m in ks && forall k | k in ks && k != m :: KeyLess(m, k);
    m
  }

  /** The keys in ascending comparator order, as the TreeSet iterates them. */
  function SortedKeys(ks: set<Interval>): (r: seq<Interval>)
    ensures |r| == |ks|
    ensures forall k :: k in r <==> k in ks
    ensures forall i, j | 0 <= i < j < |r| :: KeyLess(r[i], r[j])
    decreases |ks|
  {
    if ks == {} then []
    else
      var m := LeastKey(ks);
      [m] + SortedKeys(ks - {m})
  }

  /** The two orders `getIntervalsSorted` accepts. */
  datatype SortOrder = AscendingOrder | DescendingOrder

  /** The sequence read backwards. */
  function Reverse<T>(xs: seq<T>): (r: seq<T>)
    ensures |r| == |xs|
    ensures forall i | 0 <= i < |xs| :: r[i] == xs[|xs| - 1 - i]
  {
    if xs == [] then [] else Reverse(xs[1..]) + [xs[0]]
  }

  /** `getIntervalsSorted`: every key once, in strictly ascending or strictly descending comparator
      order. */
  function GetIntervalsSorted<V>(s: Series<V>, order: SortOrder): (r: seq<Interval>)
    ensures |r| == |s|
    ensures forall k :: k in r <==> k in s
    ensures order == AscendingOrder ==> forall i, j | 0 <= i < j < |r| :: KeyLess(r[i], r[j])
    ensures order == DescendingOrder ==> forall i, j | 0 <= i < j < |r| :: KeyLess(r[j], r[i])
  {
    var up := SortedKeys(s.Keys);
    match order
    case AscendingOrder => up
    case DescendingOrder =>
      var down := Reverse(up);
      assert forall k :: k in down <==> k in up by {
        forall k ensures k in down <==> k in up {
          if k in up {
            var i :| 0 <= i < |up| && up[i] == k;
            assert down[|up| - 1 - i] == k;
          }
        }
      }
      down
  }

  /** Under the series invariant the sorted keys follow one another: each ends at or before the start of
      every later one. */
  lemma SortedKeysFollowOneAnother<V>(s: Series<V>)
    requires NonOverlapping(s) && NoSinglePoints(s)
    ensures var xs := GetIntervalsSorted(s, AscendingOrder);
      forall i, j | 0 <= i < j < |xs| :: EndsBy(xs[i].end, xs[j].start)
  {
    var xs := GetIntervalsSorted(s, AscendingOrder);
    forall i, j | 0 <= i < j < |xs|
      ensures EndsBy(xs[i].end, xs[j].start)
    {
      assert xs[i] in s && xs[j] in s && KeyLess(xs[i], xs[j]);
      assert Separated(xs[i], xs[j]);
      assert !Degenerate(xs[j]);
    }
  }

  // ---------------------------------------------------------------------------------------------
  // Gaps

  /** The gap between the keys at `i` and `i + 1`, if the first ends (`null` first) before the second
      starts. */
  function GapAt(xs: seq<Interval>, i: int): Option<Interval>
    requires 0 <= i < |xs| - 1
  {
    if NullFirstLess(xs[i].end, xs[i + 1].start) then Some(Make(xs[i].end, xs[i + 1].start)) else None
  }

  /** The loop of `getGaps` over consecutive sorted keys: at most one gap per consecutive pair. */
  function GapsOf(xs: seq<Interval>): (r: seq<Interval>)
    ensures |r| <= if |xs| == 0 then 0 else |xs| - 1
  {
    if |xs| < 2 then []
    else (if NullFirstLess(xs[0].end, xs[1].start) then [Make(xs[0].end, xs[1].start)] else []) + GapsOf(xs[1..])
  }

  /** The gaps are exactly the spaces between consecutive keys where the first ends before the second
      starts. */
  lemma {:induction false} GapsOfMembers(xs: seq<Interval>)
    ensures forall g :: g in GapsOf(xs) <==> exists i | 0 <= i < |xs| - 1 :: GapAt(xs, i) == Some(g)
  {
    if |xs| >= 2 {
      var tail := xs[1..];
      GapsOfMembers(tail);
      var head := if NullFirstLess(xs[0].end, xs[1].start) then [Make(xs[0].end, xs[1].start)] else [];
      assert GapsOf(xs) == head + GapsOf(tail);
      forall g
        ensures g in GapsOf(xs) <==> exists i | 0 <= i < |xs| - 1 :: GapAt(xs, i) == Some(g)
      {
        if g in head {
          assert GapAt(xs, 0) == Some(g);
        } else if g in GapsOf(tail) {
          var i :| 0 <= i < |tail| - 1 && GapAt(tail, i) == Some(g);
          assert GapAt(xs, i + 1) == Some(g);
        }
        if exists i | 0 <= i < |xs| - 1 :: GapAt(xs, i) == Some(g) {
          var i :| 0 <= i < |xs| - 1 && GapAt(xs, i) == Some(g);
          if i > 0 {
            assert GapAt(tail, i - 1) == Some(g);
          }
        }
      }
    }
  }

  /** `getGaps`: the spaces between consecutive keys in ascending order; none for fewer than two keys. */
  function Gaps<V>(s: Series<V>): (r: seq<Interval>)
    ensures |s| <= 1 ==> r == []
    ensures |r| < |s| || r == []
  {
    if |s| <= 1 then [] else GapsOf(GetIntervalsSorted(s, AscendingOrder))
  }

  /** Over keys that follow one another, the gap after the key at `i` holds no point of any key. */
  lemma GapAtUncovered(xs: seq<Interval>, i: int, j: int, x: int)
    requires forall a, b | 0 <= a < b < |xs| :: EndsBy(xs[a].end, xs[b].start)
    requires 0 <= i < |xs| - 1 && GapAt(xs, i).Some? && Interior(GapAt(xs, i).value, x)
    requires 0 <= j < |xs|
    ensures !Contains(xs[j], x)
  {
    assert EndsBy(xs[i].end, xs[i + 1].start);
    if j < i {
      assert EndsBy(xs[j].end, xs[i].start);
    } else if j > i + 1 {
      assert EndsBy(xs[i + 1].end, xs[j].start);
    }
  }

  /** No key has a point strictly inside a gap. */
  lemma GapsAreUncovered<V>(s: Series<V>, g: Interval, k: Interval, x: int)
    requires NonOverlapping(s) && NoSinglePoints(s)
    requires g in Gaps(s) && k in s && Interior(g, x)
    ensures !Contains(k, x)
  {
    var xs := GetIntervalsSorted(s, AscendingOrder);
    SortedKeysFollowOneAnother(s);
    GapsOfMembers(xs);
    var i :| 0 <= i < |xs| - 1 && GapAt(xs, i) == Some(g);
    var j :| 0 <= j < |xs| && xs[j] == k;
    GapAtUncovered(xs, i, j, x);
  }

  /** A point that no key holds, with a key ending before it and a key starting after it, lies strictly
      inside a gap. */
  lemma {:induction false} GapsOfCoverUncovered(xs: seq<Interval>, x: int, j: int)
    requires forall a, b | 0 <= a < b < |xs| :: EndsBy(xs[a].end, xs[b].start)
    requires forall a | 0 <= a < |xs| :: !Contains(xs[a], x)
    requires |xs| > 0 && xs[0].end.Some? && xs[0].end.value < x
    requires 0 <= j < |xs| && xs[j].start.Some? && x < xs[j].start.value
    ensures exists g | g in GapsOf(xs) :: Interior(g, x)
    decreases |xs|
  {
    assert j != 0;
    if xs[1].start.Some? && x < xs[1].start.value {
      assert Make(xs[0].end, xs[1].start) in GapsOf(xs);
      assert Interior(Make(xs[0].end, xs[1].start), x);
    } else {
      assert !Contains(xs[1], x);
      GapsOfCoverUncovered(xs[1..], x, j - 1);
      var g :| g in GapsOf(xs[1..]) && Interior(g, x);
      assert GapsOf(xs) == (if NullFirstLess(xs[0].end, xs[1].start) then [Make(xs[0].end, xs[1].start)] else []) + GapsOf(xs[1..]);
    }
  }

  /** Conversely, every point that no key holds and that has keys on both sides lies inside a gap. */
  lemma GapsCoverUncovered<V>(s: Series<V>, x: int, before: Interval, after: Interval)
    requires NonOverlapping(s) && NoSinglePoints(s)
    requires forall k | k in s :: !Contains(k, x)
    requires before in s && before.end.Some? && before.end.value < x
    requires after in s && after.start.Some? && x < after.start.value
    ensures exists g | g in Gaps(s) :: Interior(g, x)
  {
    var xs := GetIntervalsSorted(s, AscendingOrder);
    SortedKeysFollowOneAnother(s);
    var j :| 0 <= j < |xs| && xs[j] == after;
    var b :| 0 <= b < |xs| && xs[b] == before;
    assert before != after;
    assert |s| > 1 by {
      assert {before, after} <= s.Keys;
      assert |{before, after}| == 2;
      SetSizeBound({before, after}, s.Keys);
    }
    if b > 0 {
      assert EndsBy(xs[0].end, xs[b].start);
      assert !Contains(xs[0], x);
    }
    GapsOfCoverUncovered(xs, x, j);
  }

  /** A subset is no larger. */
  lemma SetSizeBound<T>(a: set<T>, b: set<T>)
    requires a <= b
    ensures |a| <= |b|
  {
    assert b == a + (b - a);
  }

  // ---------------------------------------------------------------------------------------------
  // Extreme edges and extent

  /** A start edge at or before another, `null` (infinite) first. */
  predicate StartAtOrBefore(a: Edge, b: Edge) {
    a.None? || (b.Some? && a.value <= b.value)
  }

  /** An end edge at or before another, `null` (infinite) last. */
  predicate EndAtOrBefore(a: Edge, b: Edge) {
    b.None? || (a.Some? && a.value <= b.value)
  }

  /** In a strictly ascending list the first element comes before every other one. */
  lemma FirstIsLeast(xs: seq<Interval>)
    requires |xs| > 0 && forall i, j | 0 <= i < j < |xs| :: KeyLess(xs[i], xs[j])
    ensures forall k | k in xs :: k == xs[0] || KeyLess(xs[0], k)
  {
  }

  /** In a strictly ascending list the last element comes after every other one. */
  lemma LastIsGreatest(xs: seq<Interval>)
    requires |xs| > 0 && forall i, j | 0 <= i < j < |xs| :: KeyLess(xs[i], xs[j])
    ensures forall k | k in xs :: k == xs[|xs| - 1] || KeyLess(k, xs[|xs| - 1])
  {
  }

  /** `getStartMinimum`: the start of the first sorted key; `null` for an empty series. */
  function StartMinimum<V>(s: Series<V>): (r: Edge)
    ensures |s| == 0 ==> r.None?
    ensures |s| > 0 ==> exists k | k in s :: k.start == r
    ensures forall k | k in s :: StartAtOrBefore(r, k.start)
  {
    var xs := GetIntervalsSorted(s, AscendingOrder);
    if |xs| == 0 then None
    else
      FirstIsLeast(xs);
      xs[0].start
  }

  /** `getStartMaximum`: the start of the last sorted key; `null` for an empty series. */
  function StartMaximum<V>(s: Series<V>): (r: Edge)
    ensures |s| == 0 ==> r.None?
    ensures |s| > 0 ==> exists k | k in s :: k.start == r
    ensures forall k | k in s :: StartAtOrBefore(k.start, r)
  {
    var xs := GetIntervalsSorted(s, AscendingOrder);
    if |xs| == 0 then None
    else
      LastIsGreatest(xs);
      xs[|xs| - 1].start
  }

  /** `getEndMinimum`: the end of the first sorted key; `null` for an empty series. */
  function EndMinimum<V>(s: Series<V>): (r: Edge)
    ensures |s| == 0 ==> r.None?
    ensures |s| > 0 ==> exists k | k in s :: k.end == r
  {
    var xs := GetIntervalsSorted(s, AscendingOrder);
    if |xs| == 0 then None else xs[0].end
  }

  /** `getEndMaximum`: the end of the last sorted key; `null` for an empty series. */
  function EndMaximum<V>(s: Series<V>): (r: Edge)
    ensures |s| == 0 ==> r.None?
    ensures |s| > 0 ==> exists k | k in s :: k.end == r
  {
    var xs := GetIntervalsSorted(s, AscendingOrder);
    if |xs| == 0 then None else xs[|xs| - 1].end
  }

  /** The first sorted key holds the least end and the last one the greatest end only because the keys
      do not overlap: a key sorted later cannot end earlier. */
  lemma EndExtremesUnderInvariant<V>(s: Series<V>)
    requires NonOverlapping(s) && NoSinglePoints(s)
    ensures forall k | k in s :: EndAtOrBefore(EndMinimum(s), k.end)
    ensures forall k | k in s :: EndAtOrBefore(k.end, EndMaximum(s))
  {
    var xs := GetIntervalsSorted(s, AscendingOrder);
    SortedKeysFollowOneAnother(s);
    forall k | k in s
      ensures EndAtOrBefore(EndMinimum(s), k.end)
      ensures EndAtOrBefore(k.end, EndMaximum(s))
    {
      var j :| 0 <= j < |xs| && xs[j] == k;
      if j > 0 {
        assert EndsBy(xs[0].end, xs[j].start);
      }
      if j < |xs| - 1 {
        assert EndsBy(xs[j].end, xs[|xs| - 1].start);
      }
    }
  }

  /** Without the invariant the first sorted key need not end first. */
  lemma EndMinimumNeedsInvariant()
    ensures var s := map[Make(Some(1), Some(100)) := 0, Make(Some(2), Some(3)) := 0];
      EndMinimum(s) == Some(100) && EndMaximum(s) == Some(3)
  {
    var a, b := Make(Some(1), Some(100)), Make(Some(2), Some(3));
    TwoKeysSorted(map[a := 0, b := 0], a, b);
  }

  /** A single-point key breaks `EndExtremesUnderInvariant` on a series `putValue` builds: (5,5) is
      accepted after (5,+inf), since (5,+inf) sees a point on its start as `EndAfter`. The comparator puts
      the infinite end first, so `getEndMinimum` reads +inf although (5,5) ends at 5. */
  lemma EndMinimumWithSinglePoint()
    ensures var a, b := Make(Some(5), None), Make(Some(5), Some(5));
      && PutValue(map[a := 1], Some(b), Some(2)) == Success((map[a := 1, b := 2], None))
      && NonOverlapping(map[a := 1, b := 2])
      && EndMinimum(map[a := 1, b := 2]) == None
      && !EndAtOrBefore(EndMinimum(map[a := 1, b := 2]), b.end)
  {
    var a, b := Make(Some(5), None), Make(Some(5), Some(5));
    assert !IsOverlap(a, Some(b));
    PutSecondKey(a, b, 1, 2);
    TwoKeysSorted(map[a := 1, b := 2], a, b);
  }

  /** A second key that the first does not see as an overlap is put next to it, and when the two share
      at most an edge the series has no overlaps. */
  lemma PutSecondKey<V>(a: Interval, b: Interval, va: V, vb: V)
    requires a != b && !IsOverlap(a, Some(b))
    ensures PutValue(map[a := va], Some(b), Some(vb)) == Success((map[a := va, b := vb], None))
    ensures Separated(a, b) ==> NonOverlapping(map[a := va, b := vb])
  {
    assert !OverlapsAny(map[a := va], b);
  }

  /** A single-point key after a key infinite at its end, (5,+inf) then (5,5), breaks the theorems on
      sorted keys, end extremes and extent on a series `putValue` builds: the comparator puts the
      infinite end first, so the sorted keys do not follow one another, `getEndMaximum` reads 5 although
      (5,+inf) never ends, and the extent (5,5) does not hold (5,+inf). */
  lemma SinglePointAfterInfiniteEnd()
    ensures var a, b := Make(Some(5), None), Make(Some(5), Some(5));
      var s := map[a := 1, b := 2];
      && PutValue(map[a := 1], Some(b), Some(2)) == Success((s, None))
      && NonOverlapping(s)
      && GetIntervalsSorted(s, AscendingOrder) == [a, b]
      && !EndsBy(a.end, b.start)
      && EndMaximum(s) == Some(5)
      && Extent(s) == Make(Some(5), Some(5))
      && !Subset(a, Extent(s))
  {
    var a, b := Make(Some(5), None), Make(Some(5), Some(5));
    assert !IsOverlap(a, Some(b));
    PutSecondKey(a, b, 1, 2);
    TwoKeysSorted(map[a := 1, b := 2], a, b);
  }

  /** With a single-point key, `getGaps` can report a gap that holds a key's points. In
      {(0,2), (5,+inf), (5,5)}, which `putValue` builds, the infinite end of (5,+inf) is taken for the
      first edge in the comparator's order, so the last gap is (-inf,5), and 1 lies inside it and in
      (0,2). */
  lemma GapsWithSinglePoint()
    ensures var a, b, c := Make(Some(0), Some(2)), Make(Some(5), None), Make(Some(5), Some(5));
      var s := map[a := 1, b := 2, c := 3];
      && PutValue(map[a := 1, b := 2], Some(c), Some(3)) == Success((s, None))
      && NonOverlapping(s)
      && Gaps(s) == [Make(Some(2), Some(5)), Make(None, Some(5))]
      && Interior(Make(None, Some(5)), 1) && Contains(a, 1)
  {
    var a, b, c := Make(Some(0), Some(2)), Make(Some(5), None), Make(Some(5), Some(5));
    var s := map[a := 1, b := 2, c := 3];
    ThreeKeysWithSinglePoint(a, b, c);
    BuildThreeSorted(a, b, c, 1, 2, 3);
    GapsOfThree(a, b, c);
    PointInGapAndKey(Make(None, Some(5)), a);
  }

  /** 1 lies strictly inside (-inf,5) and in (0,2). */
  lemma PointInGapAndKey(g: Interval, a: Interval)
    requires g == Make(None, Some(5)) && a == Make(Some(0), Some(2))
    ensures Interior(g, 1) && Contains(a, 1)
  {
  }

  /** Three keys in the comparator's order, each pair separated and the third not seen as an overlap:
      `putValue` adds the third, the series has no overlaps, and its gaps are those of the three in
      order. */
  lemma BuildThreeSorted<V>(a: Interval, b: Interval, c: Interval, va: V, vb: V, vc: V)
    requires !IsOverlap(a, Some(c)) && !IsOverlap(b, Some(c))
    requires Separated(a, b) && Separated(a, c) && Separated(b, c)
    requires KeyLess(a, b) && KeyLess(b, c)
    ensures var s := map[a := va, b := vb, c := vc];
      && PutValue(map[a := va, b := vb], Some(c), Some(vc)) == Success((s, None))
      && NonOverlapping(s)
      && Gaps(s) == GapsOf([a, b, c])
  {
    var s := map[a := va, b := vb, c := vc];
    KeyLessIsStrictTotalOrder(a, b, c);
    PutThirdKey(a, b, c, va, vb, vc);
    ThreeKeysSeparated(s, a, b, c);
    ThreeKeysSorted(s, a, b, c);
    GapsOfThreeKeys(s, a, b, c);
  }

  /** How the keys (0,2), (5,+inf) and (5,5) stand to one another. */
  lemma ThreeKeysWithSinglePoint(a: Interval, b: Interval, c: Interval)
    requires a == Make(Some(0), Some(2)) && b == Make(Some(5), None) && c == Make(Some(5), Some(5))
    ensures !IsOverlap(a, Some(c)) && !IsOverlap(b, Some(c))
    ensures Separated(a, b) && Separated(a, c) && Separated(b, c)
    ensures KeyLess(a, b) && KeyLess(b, c)
    ensures NullFirstLess(a.end, b.start) && NullFirstLess(b.end, c.start)
    ensures [Make(a.end, b.start), Make(b.end, c.start)] == [Make(Some(2), Some(5)), Make(None, Some(5))]
  {
  }

  /** The gaps of a series of three keys are the gaps of its sorted keys. */
  lemma GapsOfThreeKeys<V>(s: Series<V>, a: Interval, b: Interval, c: Interval)
    requires GetIntervalsSorted(s, AscendingOrder) == [a, b, c]
    ensures Gaps(s) == GapsOf([a, b, c])
  {
  }

  /** A third key that neither stored key sees as an overlap is put next to them. */
  lemma PutThirdKey<V>(a: Interval, b: Interval, c: Interval, va: V, vb: V, vc: V)
    requires c != a && c != b && !IsOverlap(a, Some(c)) && !IsOverlap(b, Some(c))
    ensures PutValue(map[a := va, b := vb], Some(c), Some(vc)) == Success((map[a := va, b := vb, c := vc], None))
  {
    assert !OverlapsAny(map[a := va, b := vb], c);
  }

  /** A series of three keys sorts them by `KeyLess`. */
  lemma ThreeKeysSorted<V>(s: Series<V>, a: Interval, b: Interval, c: Interval)
    requires s.Keys == {a, b, c} && KeyLess(a, b) && KeyLess(b, c)
    ensures GetIntervalsSorted(s, AscendingOrder) == [a, b, c]
  {
    KeyLessIsStrictTotalOrder(a, b, c);
    KeyLessIsStrictTotalOrder(b, a, c);
    KeyLessIsStrictTotalOrder(c, b, a);
    var xs := GetIntervalsSorted(s, AscendingOrder);
    assert |s| == 3 by {
      assert a != b && b != c && a != c;
      assert |s.Keys| == |{a, b}| + |{c}|;
    }
    assert xs[0] in s && xs[1] in s && xs[2] in s;
    assert KeyLess(xs[0], xs[1]) && KeyLess(xs[1], xs[2]) && KeyLess(xs[0], xs[2]);
  }

  /** Three sorted keys, each ending before the next starts, leave a gap between each pair. */
  lemma GapsOfThree(a: Interval, b: Interval, c: Interval)
    requires NullFirstLess(a.end, b.start) && NullFirstLess(b.end, c.start)
    ensures GapsOf([a, b, c]) == [Make(a.end, b.start), Make(b.end, c.start)]
  {
    assert [a, b, c][1..] == [b, c] && [b, c][1..] == [c];
  }

  /** A series of two keys sorts them by `KeyLess`. */
  lemma TwoKeysSorted<V>(s: Series<V>, a: Interval, b: Interval)
    requires s.Keys == {a, b} && KeyLess(a, b)
    ensures GetIntervalsSorted(s, AscendingOrder) == [a, b]
  {
    var xs := GetIntervalsSorted(s, AscendingOrder);
    assert |s| == 2 by {
      assert a != b;
      assert |s.Keys| == |{a}| + |{b}|;
    }
    assert xs[0] in s && xs[1] in s && KeyLess(xs[0], xs[1]);
  }

  /** `getExtent`: the interval from the least start to the greatest end. */
  function Extent<V>(s: Series<V>): (r: Interval)
    ensures |s| == 0 ==> r == Everything
  {
    Make(StartMinimum(s), EndMaximum(s))
  }

  /** Under the invariant every key lies inside the extent, and the extent's edges are edges of keys. */
  lemma ExtentCoversKeys<V>(s: Series<V>)
    requires NonOverlapping(s) && NoSinglePoints(s)
    ensures forall k | k in s :: Subset(k, Extent(s))
    ensures |s| > 0 ==> (exists k | k in s :: k.start == Extent(s).start) && (exists k | k in s :: k.end == Extent(s).end)
  {
    EndExtremesUnderInvariant(s);
    var lo, hi := StartMinimum(s), EndMaximum(s);
    if |s| > 0 {
      var a :| a in s && a.start == lo;
      var b :| b in s && b.end == hi;
      assert StartAtOrBefore(lo, b.start) && EndAtOrBefore(a.end, hi);
      assert Extent(s) == Bounds(lo, hi);
    }
    forall k | k in s
      ensures Subset(k, Extent(s))
    {
      assert StartAtOrBefore(lo, k.start) && EndAtOrBefore(k.end, hi);
    }
  }

  // ---------------------------------------------------------------------------------------------
  // Search by point

  /** The do-while loop of `getIntervalByPoint`: a key holding the point strictly inside (or a single
      point equal to it) ends the search; with `includeEdge`, keys having the point as an edge are
      collected on the way. */
  function ScanPoint(xs: seq<Interval>, p: int, includeEdge: bool): (r: seq<Interval>)
    ensures forall k | k in r :: k in xs && Contains(k, p)
  {
    if xs == [] then []
    else
      var pos := Locate(xs[0], p);
      if pos == Between then [xs[0]]
      else (if includeEdge && pos in {AtStart, AtEnd} then [xs[0]] else []) + ScanPoint(xs[1..], p, includeEdge)
  }

  /** `getIntervalByPoint`: an empty series answers nothing before the point is checked; a null point is
      an argument error; a point before the first sorted key answers nothing without scanning. */
  function IntervalByPoint<V>(s: Series<V>, p: Edge, includeEdge: bool): (r: Result<seq<Interval>>)
    ensures r.Failure? <==> |s| > 0 && p.None?
    ensures r.Failure? ==> r.error == NullArgument
    ensures r.Success? ==> forall k | k in r.value :: k in s && Contains(k, p.value)
  {
    if |s| == 0 then Success([])
    else if p.None? then Failure(NullArgument)
    else
      var xs := GetIntervalsSorted(s, AscendingOrder);
      if Locate(xs[0], p.value) == Before then Success([])
      else Success(ScanPoint(xs, p.value, includeEdge))
  }

  /** Over keys that are proper intervals sharing at most edges, the scan finds exactly the keys that
      hold the point, counting edges only when asked to. */
  lemma {:induction false} ScanPointFindsAll(xs: seq<Interval>, p: int, includeEdge: bool)
    requires forall a | 0 <= a < |xs| :: !Degenerate(xs[a])
    requires forall a, b | 0 <= a < b < |xs| :: Separated(xs[a], xs[b])
    ensures forall k | k in xs :: k in ScanPoint(xs, p, includeEdge) <==>
      if includeEdge then Contains(k, p) else Interior(k, p)
  {
    if xs != [] {
      var pos := Locate(xs[0], p);
      if pos == Between {
        forall b | 0 < b < |xs|
          ensures !Contains(xs[b], p)
        {
          assert Separated(xs[0], xs[b]);
        }
      } else {
        ScanPointFindsAll(xs[1..], p, includeEdge);
        assert forall k | k in xs :: k == xs[0] || k in xs[1..];
      }
    }
  }

  /** Under the invariant, `getIntervalByPoint` answers exactly the keys that hold the point: on an edge
      or inside with `includeEdge`, strictly inside without it. */
  lemma IntervalByPointFindsAll<V>(s: Series<V>, p: int, includeEdge: bool)
    requires NonOverlapping(s) && NoSinglePoints(s)
    ensures IntervalByPoint(s, Some(p), includeEdge).Success?
    ensures forall k | k in s :: k in IntervalByPoint(s, Some(p), includeEdge).value <==>
      if includeEdge then Contains(k, p) else Interior(k, p)
  {
    if |s| > 0 {
      var xs := GetIntervalsSorted(s, AscendingOrder);
      if Locate(xs[0], p) == Before {
        assert forall k | k in s :: StartAtOrBefore(xs[0].start, k.start) by {
          assert forall k | k in s :: k == xs[0] || KeyLess(xs[0], k);
        }
      } else {
        forall a, b | 0 <= a < b < |xs|
          ensures Separated(xs[a], xs[b])
        {
          assert xs[a] != xs[b];
        }
        ScanPointFindsAll(xs, p, includeEdge);
      }
    }
  }

  /** A single-point key breaks `IntervalByPointFindsAll` on a series `putValue` builds: asked for the
      points strictly inside, the search for 20 in {(10,20), (20,20)} answers (20,20), which holds 20
      only as its single point. */
  lemma IntervalByPointSinglePointOnEdge()
    ensures var a, b := Make(Some(10), Some(20)), Make(Some(20), Some(20));
      && PutValue(map[a := 1], Some(b), Some(2)) == Success((map[a := 1, b := 2], None))
      && NonOverlapping(map[a := 1, b := 2])
      && IntervalByPoint(map[a := 1, b := 2], Some(20), false) == Success([b])
      && !Interior(b, 20)
  {
    var a, b := Make(Some(10), Some(20)), Make(Some(20), Some(20));
    assert !IsOverlap(a, Some(b));
    PutSecondKey(a, b, 1, 2);
    TwoKeysSorted(map[a := 1, b := 2], a, b);
    ScanTwo(a, b, 20, false);
  }

  /** The scan over two keys, the first of which does not hold the point inside. */
  lemma ScanTwo(a: Interval, b: Interval, p: int, includeEdge: bool)
    requires Locate(a, p) != Between && !(includeEdge && Locate(a, p) in {AtStart, AtEnd})
    requires Locate(b, p) == Between
    ensures ScanPoint([a, b], p, includeEdge) == [b]
  {
    assert [a, b][1..] == [b];
    assert ScanPoint([b], p, includeEdge) == [b];
  }
}
