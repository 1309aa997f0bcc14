/** The immutable closed interval of the library (`Interval<T>`), with integer edges.
    An absent edge (`None`, Java's `null`) means infinity on that side. */
module Intervals {
  import opened Base

  /** One edge of an interval; `None` is infinity. */
  type Edge = Option<int>

  /** A raw pair of edges, before the constructor has put them in order. */
  datatype Bounds = Bounds(start: Edge, end: Edge)

  /** Two finite edges are in ascending order. */
  predicate Ascending(b: Bounds) {
    b.start.Some? && b.end.Some? ==> b.start.value <= b.end.value
  }

  /** An interval as the library's constructors produce it: start <= end whenever both are finite. */
  type Interval = b: Bounds | Ascending(b) witness Bounds(None, None)

  /** The interval infinite on both sides. */
  const Everything: Interval := Bounds(None, None)

  /** Position of a point against an interval (`PositionAgainstInterval`). */
  datatype Position = Before | AtStart | Between | AtEnd | After

  /** Position of a compared interval against a reference (`IntevalComparison`): the first half names
      where the compared start lies, the second half where the compared end lies. */
  datatype Comparison =
    | BeforeBefore | BeforeStart | BeforeBetween | BeforeEnd | BeforeAfter
    | StartBetween | StartEnd | StartAfter
    | BetweenBetween | BetweenEnd | BetweenAfter
    | EndAfter | AfterAfter
    | Undefined

  // ---------------------------------------------------------------------------------------------
  // Geometry of intervals as sets of points, used to state what the operations mean.

  /** The closed interval `i` contains the point `x`. */
  predicate Contains(i: Interval, x: int) {
    (i.start.None? || i.start.value <= x) && (i.end.None? || x <= i.end.value)
  }

  /** `x` lies strictly inside `i`, on neither edge. */
  predicate Interior(i: Interval, x: int) {
    (i.start.None? || i.start.value < x) && (i.end.None? || x < i.end.value)
  }

  /** A single point: both edges finite and equal. */
  predicate Degenerate(i: Interval) {
    i.start.Some? && i.end.Some? && i.start.value == i.end.value
  }

  /** A start edge lies strictly before an end edge (infinite edges never meet). */
  predicate StartsBeforeEnd(s: Edge, e: Edge) {
    s.None? || e.None? || s.value < e.value
  }

  /** A start edge lies at or before an end edge. */
  predicate StartsByEnd(s: Edge, e: Edge) {
    s.None? || e.None? || s.value <= e.value
  }

  /** The closed intervals share at least one point. */
  predicate Intersects(a: Interval, b: Interval) {
    StartsByEnd(a.start, b.end) && StartsByEnd(b.start, a.end)
  }

  /** The overlap the library means by `isOverlap`, stated on points: against a single-point reference it
      is containment of that point, otherwise the two intervals share more than an edge. */
  predicate OverlapsGeometrically(r: Interval, o: Interval) {
    if Degenerate(r) then Contains(o, r.start.value)
    else StartsBeforeEnd(o.start, r.end) && StartsBeforeEnd(r.start, o.end)
  }

  /** An end edge `e` is finite and lies at or before a finite start edge `s`. */
  predicate EndsBy(e: Edge, s: Edge) {
    e.Some? && s.Some? && e.value <= s.value
  }

  /** One interval ends where or before the other starts: they share at most a common edge. */
  predicate Separated(a: Interval, b: Interval) {
    EndsBy(a.end, b.start) || EndsBy(b.end, a.start)
  }

  /** Every point of `a` is a point of `b`. */
  predicate Subset(a: Interval, b: Interval) {
    && (b.start.None? || (a.start.Some? && b.start.value <= a.start.value))
    && (b.end.None? || (a.end.Some? && a.end.value <= b.end.value))
  }

  /** `inner` lies inside `outer` with neither edge on an edge of `outer`. */
  predicate StrictlyWithin(inner: Interval, outer: Interval) {
    && inner.start.Some? && (outer.start.None? || outer.start.value < inner.start.value)
    && inner.end.Some? && (outer.end.None? || inner.end.value < outer.end.value)
  }

  // ---------------------------------------------------------------------------------------------
  // Construction and edge comparison

  /** The two-edge constructor: finite edges given in descending order are swapped; an absent edge is
      kept where it was given. */
  function Make(a: Edge, b: Edge): (r: Interval)
    ensures a.None? || b.None? ==> r.start == a && r.end == b
    ensures a.Some? && b.Some? ==> multiset{r.start, r.end} == multiset{a, b}
  {
    if a.Some? && b.Some? && a.value > b.value then Bounds(b, a) else Bounds(a, b)
  }

  /** `isEqualStart`: both starts infinite, or both finite and equal. */
  function IsEqualStart(a: Interval, b: Interval): (r: bool)
    ensures r <==> a.start == b.start
  {
    if a.start.None? then b.start.None?
    else if b.start.None? then false
    else a.start.value == b.start.value
  }

  /** `isEqualEnd`: both ends infinite, or both finite and equal. */
  function IsEqualEnd(a: Interval, b: Interval): (r: bool)
    ensures r <==> a.end == b.end
  {
    if a.end.None? then b.end.None?
    else if b.end.None? then false
    else a.end.value == b.end.value
  }

  /** `equals`: false for null, otherwise equal starts and equal ends. */
  function Equals(a: Interval, other: Option<Interval>): (r: bool)
    ensures r <==> other == Some(a)
  {
    other.Some? && IsEqualStart(a, other.value) && IsEqualEnd(a, other.value)
  }

  /** The private `minimum`: absent if either edge is absent, otherwise the smaller. */
  function Minimum(a: Edge, b: Edge): (r: Edge)
    ensures r.None? <==> a.None? || b.None?
    ensures r.Some? ==> r.value <= a.value && r.value <= b.value && (r == a || r == b)
  {
    if a.None? || b.None? then None
    else if a.value < b.value then a else b
  }

  /** The private `maximum`: absent if either edge is absent, otherwise the larger. */
  function Maximum(a: Edge, b: Edge): (r: Edge)
    ensures r.None? <==> a.None? || b.None?
    ensures r.Some? ==> a.value <= r.value && b.value <= r.value && (r == a || r == b)
  {
    if a.None? || b.None? then None
    else if a.value > b.value then a else b
  }

  // ---------------------------------------------------------------------------------------------
  // Classification

  /** `positionAgainstInterval` for a present point. A single-point interval reports its own point as
      `Between`, never as `AtStart` or `AtEnd`. */
  function Locate(i: Interval, p: int): (r: Position)
    ensures r == Before <==> i.start.Some? && p < i.start.value
    ensures r == After <==> i.end.Some? && i.end.value < p
    ensures r == AtStart <==> i.start == Some(p) && !Degenerate(i)
    ensures r == AtEnd <==> i.end == Some(p) && !Degenerate(i)
    ensures r == Between <==> Interior(i, p) || (Degenerate(i) && i.start == Some(p))
  {
    if i.start.None? && i.end.None? then Between
    else if i.start.None? then
      if p < i.end.value then Between
      else if p == i.end.value then AtEnd
      else After
    else if i.end.None? then
      if p < i.start.value then Before
      else if p == i.start.value then AtStart
      else Between
    else if i.start.value == i.end.value then
      if p < i.start.value then Before
      else if p == i.start.value then Between
      else After
    else if p < i.start.value then Before
    else if p == i.start.value then AtStart
    else if p < i.end.value then Between
    else if p == i.end.value then AtEnd
    else After
  }

  /** `positionAgainstInterval`: a null point is an argument error. */
  function PositionAgainstInterval(i: Interval, p: Edge): (r: Result<Position>)
    ensures r.Failure? <==> p.None?
    ensures r.Failure? ==> r.error == NullArgument
    ensures r.Success? ==> (r.value == Between <==> Contains(i, p.value) && (Degenerate(i) || (i.start != p && i.end != p)))
    ensures r.Success? ==> r.value == Locate(i, p.value)
  {
    if p.None? then Failure(NullArgument) else Success(Locate(i, p.value))
  }

  /** The switch of `compareToOther` for a compared interval with two finite edges, given the positions
      of its start and its end. The Java `case AtStart` and `case Between` arms have no `break`: an end
      position they do not list falls through to `case AtEnd` and yields `EndAfter`. */
  function Combine(startPos: Position, endPos: Position): (r: Comparison)
    ensures r != Undefined
    ensures r == EndAfter <==>
      || startPos == AtEnd
      || ((startPos == AtStart || startPos == Between) && (endPos == Before || endPos == AtStart))
  {
    match startPos
    case Before =>
      (match endPos
       case Before => BeforeBefore
       case AtStart => BeforeStart
       case Between => BeforeBetween
       case AtEnd => BeforeEnd
       case After => BeforeAfter)
    case AtStart =>
      (match endPos
       case Between => StartBetween
       case AtEnd => StartEnd
       case After => StartAfter
       case _ => EndAfter)
    case Between =>
      (match endPos
       case Between => BetweenBetween
       case AtEnd => BetweenEnd
       case After => BetweenAfter
       case _ => EndAfter)
    case AtEnd => EndAfter
    case After => AfterAfter
  }

  /** `compareToOther`: where `o` lies against the reference `r`. Every pair of intervals, finite or not,
      gets one of the thirteen named outcomes; `Undefined` is never produced. */
  function Compare(r: Interval, o: Interval): (c: Comparison)
    ensures c != Undefined
  {
    if o.start.Some? && o.end.Some? then
      Combine(Locate(r, o.start.value), Locate(r, o.end.value))
    else if o.start.Some? then
      match Locate(r, o.start.value)
      case Before => if r.end.None? then BeforeEnd else BeforeAfter
      case AtStart => if r.end.None? then StartEnd else StartAfter
      case Between => if r.end.None? then BetweenEnd else BetweenAfter
      case AtEnd => EndAfter
      case After => AfterAfter
    else if o.end.Some? then
      match Locate(r, o.end.value)
      case Before => BeforeBefore
      case AtStart => BeforeStart
      case Between => if r.start.None? then StartBetween else BeforeBetween
      case AtEnd => if r.start.None? then StartEnd else BeforeEnd
      case After => if r.start.None? then StartAfter else BeforeAfter
    else if r.start.Some? && r.end.Some? then BetweenBetween
    else if r.start.Some? then BetweenEnd
    else if r.end.Some? then StartBetween
    else StartEnd
  }

  /** `compareToOther` with a possibly null argument. */
  function CompareToOther(r: Interval, o: Option<Interval>): (c: Result<Comparison>)
    ensures c.Failure? <==> o.None?
    ensures c.Failure? ==> c.error == NullArgument
    ensures c.Success? ==> c.value != Undefined
  {
    if o.None? then Failure(NullArgument) else Success(Compare(r, o.value))
  }

  // ---------------------------------------------------------------------------------------------
  // Predicates derived from the classification; a null argument gives false.

  /** `isCompletelyInside`: this lies strictly inside `other`. */
  predicate IsCompletelyInside(t: Interval, other: Option<Interval>): (r: bool)
    ensures r ==> other.Some? && other.value != t
  {
    other.Some? && Compare(t, other.value) == BeforeAfter
  }

  /** `isCompletelyInsideOrAtEdge`: this lies inside `other`, edges allowed to coincide. */
  predicate IsCompletelyInsideOrAtEdge(t: Interval, other: Option<Interval>): (r: bool)
    ensures other == Some(t) ==> (r <==> !Degenerate(t))
  {
    other.Some? && Compare(t, other.value) in {BeforeAfter, StartAfter, BeforeEnd, StartEnd}
  }

  /** `completelyContains`: `other` lies strictly inside this. */
  predicate CompletelyContains(t: Interval, other: Option<Interval>): (r: bool)
    ensures other == Some(t) ==> (r <==> Degenerate(t))
  {
    other.Some? && Compare(t, other.value) == BetweenBetween
  }

  /** `completelyContainsOrAtEdge`: `other` lies inside this, edges allowed to coincide. */
  predicate CompletelyContainsOrAtEdge(t: Interval, other: Option<Interval>): (r: bool)
    ensures other == Some(t) ==> r
  {
    other.Some? && Compare(t, other.value) in {BetweenBetween, StartBetween, BetweenEnd, StartEnd}
  }

  /** `isOverlap`: anything but lying wholly before, wholly after, or touching an edge from outside. */
  predicate IsOverlap(t: Interval, other: Option<Interval>): (r: bool)
    ensures other == Some(t) ==> r
  {
    other.Some? && Compare(t, other.value) !in {BeforeBefore, BeforeStart, EndAfter, AfterAfter}
  }

  /** The start edge `overlap` builds: an infinite start takes the other side's edge. */
  function OverlapStart(a: Edge, b: Edge): (r: Edge)
    ensures r.None? <==> a.None? && b.None?
    ensures a.Some? && r.Some? ==> a.value <= r.value
    ensures b.Some? && r.Some? ==> b.value <= r.value
    ensures r == a || r == b
  {
    if a.None? then b else if b.None? then a else Maximum(a, b)
  }

  /** The end edge `overlap` builds: an infinite end takes the other side's edge. */
  function OverlapEnd(a: Edge, b: Edge): (r: Edge)
    ensures r.None? <==> a.None? && b.None?
    ensures a.Some? && r.Some? ==> r.value <= a.value
    ensures b.Some? && r.Some? ==> r.value <= b.value
    ensures r == a || r == b
  {
    if a.None? then b else if b.None? then a else Minimum(a, b)
  }

  /** `overlap`: the common part of two overlapping intervals; null when they do not overlap. */
  function Overlap(t: Interval, other: Option<Interval>): (r: Option<Interval>)
    ensures r.None? <==> !IsOverlap(t, other)
  {
    if other.None? || !IsOverlap(t, other) then None
    else Some(Make(OverlapStart(t.start, other.value.start), OverlapEnd(t.end, other.value.end)))
  }

  /** `union`: the interval covering both, only for overlapping intervals; an infinite edge on either
      side makes that edge of the result infinite. */
  function Union(t: Interval, other: Option<Interval>): (r: Option<Interval>)
    ensures r.None? <==> !IsOverlap(t, other)
  {
    if other.None? || !IsOverlap(t, other) then None
    else Some(Make(Minimum(t.start, other.value.start), Maximum(t.end, other.value.end)))
  }

  /** `cutBy`: what remains of this after removing `other`. Null or non-overlapping `other`, and a
      single-point overlap, leave this unchanged; an overlap equal to this leaves nothing; an overlap
      strictly inside splits this in two; otherwise one edge is moved. The Java code calls `compareTo`
      on the overlap's edges and on this start, which fails on an infinite edge. */
  function CutBy(t: Interval, other: Option<Interval>): (r: Result<seq<Interval>>)
    ensures !IsOverlap(t, other) ==> r == Success([t])
    ensures r.Success? ==> |r.value| <= 2
  {
    if !IsOverlap(t, other) then Success([Make(t.start, t.end)])
    else
      var ov := Overlap(t, other).value;
      if ov.start.None? || ov.end.None? then Failure(NullDereference)
      else if ov.start.value == ov.end.value then Success([Make(t.start, t.end)])
      else if Compare(ov, t) != StartEnd then
        if CompletelyContains(t, Some(ov)) then Success([Make(t.start, ov.start), Make(ov.end, t.end)])
        else if t.start.None? then Failure(NullDereference)
        else if t.start.value == ov.start.value then Success([Make(ov.end, t.end)])
        else Success([Make(t.start, ov.start)])
      else Success([])
  }
}
