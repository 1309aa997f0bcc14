/** What the classification of `Interval` means on points, and the properties of the operations built
    on it. */
module IntervalFacts {
  import opened Base
  import opened Intervals

  /** Building from (b, a) gives the same interval as building from (a, b), with start <= end. */
  lemma MakeOrdersEdges(a: int, b: int)
    ensures Make(Some(a), Some(b)) == Make(Some(b), Some(a))
    ensures Make(Some(a), Some(b)).start == Some(if a <= b then a else b)
    ensures Make(Some(a), Some(b)).end == Some(if a <= b then b else a)
  {
  }

  /** Rebuilding an interval from its own edges gives it back. */
  lemma MakeRoundTrip(i: Interval)
    ensures Make(i.start, i.end) == i
  {
  }

  /** The reference (10,60) against the probes of the library's tests that start before it, offset
      by 10. */
  lemma CompareProbesBefore()
    ensures var r := Make(Some(10), Some(60));
      && Compare(r, Make(Some(-10), Some(0))) == BeforeBefore
      && Compare(r, Make(Some(0), Some(10))) == BeforeStart
      && Compare(r, Make(Some(0), Some(20))) == BeforeBetween
      && Compare(r, Make(Some(0), Some(60))) == BeforeEnd
      && Compare(r, Make(Some(0), Some(70))) == BeforeAfter
  {
  }

  /** The reference (10,60) against the probes of the library's tests that start on its start. */
  lemma CompareProbesStart()
    ensures var r := Make(Some(10), Some(60));
      && Compare(r, Make(Some(10), Some(20))) == StartBetween
      && Compare(r, Make(Some(10), Some(60))) == StartEnd
      && Compare(r, Make(Some(10), Some(70))) == StartAfter
  {
  }

  /** The reference (10,60) against the probes of the library's tests that start inside it or later. */
  lemma CompareProbesLater()
    ensures var r := Make(Some(10), Some(60));
      && Compare(r, Make(Some(20), Some(50))) == BetweenBetween
      && Compare(r, Make(Some(20), Some(60))) == BetweenEnd
      && Compare(r, Make(Some(20), Some(70))) == BetweenAfter
      && Compare(r, Make(Some(60), Some(70))) == EndAfter
      && Compare(r, Make(Some(70), Some(80))) == AfterAfter
  {
  }

  /** The switch fall-through: a single-point probe on the reference's start classifies as `EndAfter`,
      so `isOverlap` is not symmetric once a single-point interval is involved. */
  lemma SinglePointAtStartIsEndAfter(s: int, e: int)
    requires s < e
    ensures Compare(Make(Some(s), Some(e)), Make(Some(s), Some(s))) == EndAfter
    ensures !IsOverlap(Make(Some(s), Some(e)), Some(Make(Some(s), Some(s))))
    ensures IsOverlap(Make(Some(s), Some(s)), Some(Make(Some(s), Some(e))))
  {
  }

  /** A probe infinite on both sides is classified by where the reference lies in the probe, not the
      other way round: against a finite reference it reads `BetweenBetween`, so `completelyContains`
      holds and `isCompletelyInside` fails. */
  lemma FullyInfiniteProbeReadsInside(s: int, e: int)
    requires s <= e
    ensures Compare(Make(Some(s), Some(e)), Everything) == BetweenBetween
    ensures CompletelyContains(Make(Some(s), Some(e)), Some(Everything))
    ensures !IsCompletelyInside(Make(Some(s), Some(e)), Some(Everything))
  {
  }

  /** `isOverlap` against a present interval is the point-set overlap `OverlapsGeometrically`. */
  lemma IsOverlapMeaning(t: Interval, o: Interval)
    ensures IsOverlap(t, Some(o)) <==> OverlapsGeometrically(t, o)
  {
  }

  /** Between intervals that are not single points, `isOverlap` is symmetric, and it never holds for
      intervals that only touch. */
  lemma IsOverlapSymmetric(a: Interval, b: Interval)
    requires !Degenerate(a) && !Degenerate(b)
    ensures IsOverlap(a, Some(b)) <==> IsOverlap(b, Some(a))
    ensures Separated(a, b) ==> !IsOverlap(a, Some(b))
  {
    IsOverlapMeaning(a, b);
    IsOverlapMeaning(b, a);
  }

  /** The edge-inclusive overlap test of the series (`compareToOther` outside {BeforeBefore, AfterAfter})
      is intersection of the closed intervals, and so symmetric. */
  lemma TouchesMeaning(t: Interval, o: Interval)
    ensures Compare(t, o) !in {BeforeBefore, AfterAfter} <==> Intersects(t, o)
  {
  }

  /** A rejection by `isOverlap` from the reference side means the two share at most an edge. */
  lemma NotOverlapSeparates(k: Interval, n: Interval)
    requires !IsOverlap(k, Some(n))
    ensures Separated(k, n)
  {
    IsOverlapMeaning(k, n);
  }

  /** Intervals that share at most an edge do not overlap, unless the reference is a single point. */
  lemma SeparatedNotOverlap(k: Interval, n: Interval)
    requires Separated(k, n) && !Degenerate(k)
    ensures !IsOverlap(k, Some(n))
  {
    IsOverlapMeaning(k, n);
  }

  /** `completelyContains`: the other lies strictly inside; a single point contains only itself; and,
      as written, a fully infinite argument counts as contained in a reference with two finite edges. */
  lemma CompletelyContainsMeaning(t: Interval, o: Interval)
    ensures CompletelyContains(t, Some(o)) <==>
      || StrictlyWithin(o, t)
      || (Degenerate(t) && o == t)
      || (o == Everything && t.start.Some? && t.end.Some?)
  {
  }

  /** `isCompletelyInside`: this lies strictly inside the other, except that a fully infinite other is
      never recognised. */
  lemma IsCompletelyInsideMeaning(t: Interval, o: Interval)
    ensures IsCompletelyInside(t, Some(o)) <==> StrictlyWithin(t, o) && o != Everything
  {
  }

  /** `isCompletelyInsideOrAtEdge`: against a fully infinite other only the fully infinite interval
      qualifies; a single point qualifies only strictly inside; otherwise it is inclusion. */
  lemma IsCompletelyInsideOrAtEdgeMeaning(t: Interval, o: Interval)
    ensures IsCompletelyInsideOrAtEdge(t, Some(o)) <==>
      if o == Everything then t == Everything
      else if Degenerate(t) then StrictlyWithin(t, o)
      else Subset(t, o)
  {
  }

  /** `completelyContainsOrAtEdge`: inclusion, except that a fully infinite other always qualifies and
      that a single point on an edge of a longer reference does not (the switch fall-through). */
  lemma CompletelyContainsOrAtEdgeMeaning(t: Interval, o: Interval)
    ensures CompletelyContainsOrAtEdge(t, Some(o)) <==>
      || o == Everything
      || (Subset(o, t) && !(Degenerate(o) && !Degenerate(t) && (o.start == t.start || o.end == t.end)))
  {
  }

  /** `StartEnd` means the compared interval equals a reference that is not a single point. */
  lemma StartEndMeaning(r: Interval, o: Interval)
    ensures Compare(r, o) == StartEnd <==> o == r && !Degenerate(r)
  {
  }

  /** Every null argument is handled without classification: the predicates are false and the
      operations return null, except `cutBy`, which returns this unchanged. */
  lemma NullArgumentIsNoOverlap(t: Interval)
    ensures !IsOverlap(t, None) && !IsCompletelyInside(t, None) && !IsCompletelyInsideOrAtEdge(t, None)
    ensures !CompletelyContains(t, None) && !CompletelyContainsOrAtEdge(t, None)
    ensures Overlap(t, None) == None && Union(t, None) == None
    ensures CutBy(t, None) == Success([t])
    ensures CompareToOther(t, None) == Failure(NullArgument)
  {
  }

  /** `overlap` picks the larger start and the smaller end, an infinite edge yielding to a finite one;
      the constructor never has to swap them. */
  lemma OverlapEdges(t: Interval, o: Interval)
    requires IsOverlap(t, Some(o))
    ensures Overlap(t, Some(o)).value == Bounds(OverlapStart(t.start, o.start), OverlapEnd(t.end, o.end))
  {
    IsOverlapMeaning(t, o);
  }

  /** `overlap` is the intersection of the two intervals as sets of points. */
  lemma OverlapIsIntersection(t: Interval, o: Interval, x: int)
    requires IsOverlap(t, Some(o))
    ensures Contains(Overlap(t, Some(o)).value, x) <==> Contains(t, x) && Contains(o, x)
  {
    OverlapEdges(t, o);
  }

  /** `union` picks the smaller start and the larger end, an infinite edge winning; the constructor never
      has to swap them. */
  lemma UnionEdges(t: Interval, o: Interval)
    requires IsOverlap(t, Some(o))
    ensures Union(t, Some(o)).value == Bounds(Minimum(t.start, o.start), Maximum(t.end, o.end))
  {
  }

  /** `union` of overlapping intervals is their union as sets of points. */
  lemma UnionIsJoin(t: Interval, o: Interval, x: int)
    requires IsOverlap(t, Some(o))
    ensures Contains(Union(t, Some(o)).value, x) <==> Contains(t, x) || Contains(o, x)
  {
    IsOverlapMeaning(t, o);
    UnionEdges(t, o);
  }

  /** The outcomes of `cutBy` for an overlapping argument, by the shape of the overlap `ov`. */
  lemma CutByCases(t: Interval, o: Interval)
    requires IsOverlap(t, Some(o))
    ensures var ov := Overlap(t, Some(o)).value;
      && (ov.start.None? || ov.end.None? ==> CutBy(t, Some(o)) == Failure(NullDereference))
      && (Degenerate(ov) ==> CutBy(t, Some(o)) == Success([t]))
      && (ov.start.Some? && ov.end.Some? && !Degenerate(ov) ==>
            if ov == t then CutBy(t, Some(o)) == Success([])
            else if StrictlyWithin(ov, t) then CutBy(t, Some(o)) == Success([Bounds(t.start, ov.start), Bounds(ov.end, t.end)])
            else if t.start.None? then CutBy(t, Some(o)) == Failure(NullDereference)
            else if t.start == ov.start then CutBy(t, Some(o)) == Success([Bounds(ov.end, t.end)])
            else CutBy(t, Some(o)) == Success([Bounds(t.start, ov.start)]))
  {
    var ov := Overlap(t, Some(o)).value;
    OverlapEdges(t, o);
    if ov.start.Some? && ov.end.Some? && !Degenerate(ov) {
      StartEndMeaning(ov, t);
      CompletelyContainsMeaning(t, ov);
    }
  }

  /** The pieces `cutBy` returns lie in this and outside the interior of the overlap, and every point of
      this outside the overlap is kept; only an overlap covering all of this removes its edges too. A
      single-point overlap has no interior and leaves this whole. */
  lemma CutByRemovesOverlap(t: Interval, o: Interval, x: int)
    requires IsOverlap(t, Some(o))
    requires CutBy(t, Some(o)).Success?
    ensures var ov := Overlap(t, Some(o)).value;
      && (forall p | p in CutBy(t, Some(o)).value :: Subset(p, t) && (Contains(p, x) ==> !Interior(ov, x)))
      && (Contains(t, x) && !Contains(ov, x) ==> exists p :: p in CutBy(t, Some(o)).value && Contains(p, x))
  {
    CutByCases(t, o);
    OverlapEdges(t, o);
    var ov := Overlap(t, Some(o)).value;
    var ps := CutBy(t, Some(o)).value;
    if Degenerate(ov) || ov == t {
      // A single-point overlap leaves `t` whole and has no interior; an overlap equal to `t` leaves nothing.
    } else if Contains(t, x) && !Contains(ov, x) {
      if ov.start.Some? && x < ov.start.value {
        assert Contains(ps[0], x);
      } else {
        assert Contains(ps[|ps| - 1], x);
      }
    }
  }
}
