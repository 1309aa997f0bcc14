/** The map part of `IntervalsSeries<T,V>`: interval keys mapped to values, no stored key overlapping
    another. The Java class mutates a HashMap; here every operation returns the new map. */
module IntervalsSeries {
  import opened Base
  import opened Intervals
  import IntervalFacts

  /** The backing store: each interval key maps to its value. */
  type Series<V> = map<Interval, V>

  /** The invariant the series keeps: two distinct keys share at most an edge point. */
  ghost predicate NonOverlapping<V>(s: Series<V>) {
    forall a, b | a in s && b in s && a != b :: Separated(a, b)
  }

  /** No key is a single point. Several results below need it, because `isOverlap` treats a single-point
      reference differently (see `IntervalFacts.SinglePointAtStartIsEndAfter`). */
  ghost predicate NoSinglePoints<V>(s: Series<V>) {
    forall k | k in s :: !Degenerate(k)
  }

  /** The private `isOverlapExcludeEdgeWith`: some stored key `k` has `k.isOverlap(i)`. */
  predicate OverlapsAny<V>(s: Series<V>, i: Interval): (r: bool)
    ensures i in s ==> r
  {
    exists k | k in s :: IsOverlap(k, Some(i))
  }

  /** The private `isOverlapIncludeEdgeWith`: some stored key classifies `i` as neither wholly before
      nor wholly after it. */
  predicate TouchesAny<V>(s: Series<V>, i: Interval): (r: bool)
    ensures i in s ==> r
  {
    exists k | k in s :: Compare(k, i) !in {AfterAfter, BeforeBefore}
  }

  /** `containsInterval`: a null interval is an argument error. */
  function ContainsInterval<V>(s: Series<V>, i: Option<Interval>): (r: Result<bool>)
    ensures r.Failure? <==> i.None?
    ensures r.Failure? ==> r.error == NullArgument
    ensures r.Success? ==> (r.value <==> i.value in s)
  {
    if i.None? then Failure(NullArgument) else Success(i.value in s)
  }

  /** `containsValue`: some interval maps to `v`. */
  function ContainsValue<V(==)>(s: Series<V>, v: V): (r: bool)
    ensures r <==> exists k | k in s :: s[k] == v
  {
    v in s.Values
  }

  /** `getValue`: the value of `i`, null when `i` is not a key; a null interval is an argument error. */
  function GetValue<V>(s: Series<V>, i: Option<Interval>): (r: Result<Option<V>>)
    ensures r.Failure? <==> i.None?
    ensures r.Failure? ==> r.error == NullArgument
    ensures r.Success? ==> (r.value.Some? <==> i.value in s)
    ensures r.Success? && r.value.Some? ==> r.value.value == s[i.value]
  {
    if i.None? then Failure(NullArgument)
    else if i.value in s then Success(Some(s[i.value]))
    else Success(None)
  }

  /** `putValue`: replaces the value of an existing key without any overlap check; adds a new key only if
      no stored key overlaps it (edges excluded). Returns the new series and the previous value. */
  function PutValue<V>(s: Series<V>, i: Option<Interval>, v: Option<V>): (r: Result<(Series<V>, Option<V>)>)
    ensures i.None? || v.None? ==> r == Failure(NullArgument)
    ensures i.Some? && v.Some? && i.value in s ==>
      && r.Success? && r.value.0.Keys == s.Keys && r.value.0[i.value] == v.value
      && r.value.1 == Some(s[i.value])
      && forall k | k in s && k != i.value :: r.value.0[k] == s[k]
    ensures i.Some? && v.Some? && i.value !in s && OverlapsAny(s, i.value) ==> r == Failure(IllegalOverlap)
    ensures i.Some? && v.Some? && i.value !in s && !OverlapsAny(s, i.value) ==>
      && r.Success? && r.value.0.Keys == s.Keys + {i.value} && |r.value.0| == |s| + 1
      && r.value.0[i.value] == v.value && r.value.1 == None
      && forall k | k in s :: r.value.0[k] == s[k]
  {
    if i.None? || v.None? then Failure(NullArgument)
    else if i.value in s then Success((s[i.value := v.value], Some(s[i.value])))
    else if OverlapsAny(s, i.value) then Failure(IllegalOverlap)
    else Success((s[i.value := v.value], None))
  }

  /** `remove`: deletes the key and returns its previous value (null when absent). */
  function Remove<V>(s: Series<V>, i: Option<Interval>): (r: Result<(Series<V>, Option<V>)>)
    ensures r.Failure? <==> i.None?
    ensures r.Failure? ==> r.error == NullArgument
    ensures r.Success? ==> r.value.0.Keys == s.Keys - {i.value}
    ensures r.Success? ==> forall k | k in r.value.0 :: r.value.0[k] == s[k]
    ensures r.Success? ==> (r.value.1.Some? <==> i.value in s)
    ensures r.Success? && i.value in s ==> r.value.1 == Some(s[i.value])
  {
    if i.None? then Failure(NullArgument)
    else if i.value in s then Success((s - {i.value}, Some(s[i.value])))
    else Success((s, None))
  }

  /** `isOverlapWith`: with edges excluded the test is `isOverlap` from each stored key; with edges
      included, any classification but wholly before or wholly after. */
  function IsOverlapWith<V>(s: Series<V>, i: Option<Interval>, edgesIncluded: bool): (r: Result<bool>)
    ensures r.Failure? <==> i.None?
    ensures r.Failure? ==> r.error == NullArgument
    ensures r.Success? && !edgesIncluded ==>
      (r.value <==> exists k | k in s :: OverlapsGeometrically(k, i.value))
    ensures r.Success? && edgesIncluded ==>
      (r.value <==> exists k | k in s :: Intersects(k, i.value))
  {
    if i.None? then Failure(NullArgument)
    else
      OverlapMeaningForAll(s, i.value);
      if edgesIncluded then Success(TouchesAny(s, i.value)) else Success(OverlapsAny(s, i.value))
  }

  /** `getOverlapedWith`: exactly the stored keys passing the test `isOverlapWith` uses. The Java list
      follows the HashMap's order; here it is a set. */
  function GetOverlapedWith<V>(s: Series<V>, i: Option<Interval>, includeEdges: bool): (r: Result<set<Interval>>)
    ensures r.Failure? <==> i.None?
    ensures r.Failure? ==> r.error == NullArgument
    ensures r.Success? ==> r.value <= s.Keys
    ensures r.Success? && !includeEdges ==>
      forall k | k in s :: k in r.value <==> OverlapsGeometrically(k, i.value)
    ensures r.Success? && includeEdges ==>
      forall k | k in s :: k in r.value <==> Intersects(k, i.value)
  {
    if i.None? then Failure(NullArgument)
    else
      OverlapMeaningForAll(s, i.value);
      if includeEdges then Success(set k | k in s && Compare(k, i.value) !in {AfterAfter, BeforeBefore})
      else Success(set k | k in s && IsOverlap(k, Some(i.value)))
  }

  /** Both overlap tests against every stored key, stated on points. */
  lemma OverlapMeaningForAll<V>(s: Series<V>, i: Interval)
    ensures forall k | k in s :: IsOverlap(k, Some(i)) <==> OverlapsGeometrically(k, i)
    ensures forall k | k in s :: Compare(k, i) !in {AfterAfter, BeforeBefore} <==> Intersects(k, i)
  {
    forall k | k in s
      ensures IsOverlap(k, Some(i)) <==> OverlapsGeometrically(k, i)
      ensures Compare(k, i) !in {AfterAfter, BeforeBefore} <==> Intersects(k, i)
    {
      IntervalFacts.IsOverlapMeaning(k, i);
      IntervalFacts.TouchesMeaning(k, i);
    }
  }

  /** A successful `putValue` keeps the series free of overlaps: the check from the stored side already
      guarantees that the new key shares at most an edge with each stored one. */
  lemma PutValueKeepsNonOverlapping<V>(s: Series<V>, i: Interval, v: V)
    requires NonOverlapping(s)
    requires PutValue(s, Some(i), Some(v)).Success?
    ensures NonOverlapping(PutValue(s, Some(i), Some(v)).value.0)
  {
    if i !in s {
      forall k | k in s
        ensures Separated(k, i)
      {
        IntervalFacts.NotOverlapSeparates(k, i);
      }
    }
  }

  /** `isOverlapWith` answers yes exactly when `getOverlapedWith` finds something. */
  lemma IsOverlapWithAgreesWithGetOverlapedWith<V>(s: Series<V>, i: Interval, edges: bool)
    ensures IsOverlapWith(s, Some(i), edges).value <==> GetOverlapedWith(s, Some(i), edges).value != {}
  {
    var found := GetOverlapedWith(s, Some(i), edges).value;
    if IsOverlapWith(s, Some(i), edges).value {
      if edges {
        var k :| k in s && Intersects(k, i);
        assert k in found;
      } else {
        var k :| k in s && OverlapsGeometrically(k, i);
        assert k in found;
      }
    }
  }

  /** Removing a key just added gives the series back. */
  lemma PutThenRemove<V>(s: Series<V>, i: Interval, v: V)
    requires i !in s && !OverlapsAny(s, i)
    ensures Remove(PutValue(s, Some(i), Some(v)).value.0, Some(i)) == Success((s, Some(v)))
  {
    var t := PutValue(s, Some(i), Some(v)).value.0;
    assert t - {i} == s;
  }

  /** Three keys, each pair separated, make a series free of overlaps. */
  lemma ThreeKeysSeparated<V>(s: Series<V>, a: Interval, b: Interval, c: Interval)
    requires s.Keys == {a, b, c}
    requires Separated(a, b) && Separated(a, c) && Separated(b, c)
    ensures NonOverlapping(s)
  {
  }
}
