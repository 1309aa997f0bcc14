/** The editing operations of `IntervalsSeries` built from `putValue` and `remove`: `changeEdges`,
    `erase` and `insertNew`. */
module SeriesEdit {
  import opened Base
  import opened Intervals
  import IntervalFacts
  import opened IntervalsSeries

  // ---------------------------------------------------------------------------------------------
  // changeEdges

  /** `changeEdges` as written: the pair is removed, and if the replacement overlaps a remaining key
      the old pair is put back with `putValue`, which runs the overlap check again and can refuse. The
      refusal happens exactly when the current key also overlaps a remaining key. */
  function ChangeEdges<V>(s: Series<V>, current: Option<Interval>, replacement: Option<Interval>)
    : (r: Result<(Series<V>, bool)>)
    ensures current.None? || replacement.None? ==> r == Failure(NullArgument)
    ensures current.Some? && replacement.Some? && current.value !in s ==> r == Success((s, false))
    ensures r.Success? && r.value.1 ==>
      && current.Some? && current.value in s && replacement.Some?
      && !OverlapsAny(s - {current.value}, replacement.value)
      && r.value.0 == (s - {current.value})[replacement.value := s[current.value]]
    ensures current.Some? && replacement.Some? && current.value in s && !OverlapsAny(s - {current.value}, replacement.value) ==>
      r == Success(((s - {current.value})[replacement.value := s[current.value]], true))
    ensures r.Success? && !r.value.1 ==> r.value.0 == s
    ensures r.Failure? ==> r.error == NullArgument || r.error == IllegalOverlap
    ensures r == Failure(IllegalOverlap) <==>
      && current.Some? && replacement.Some? && current.value in s
      && OverlapsAny(s - {current.value}, replacement.value)
      && OverlapsAny(s - {current.value}, current.value)
  {
    if current.None? || replacement.None? then Failure(NullArgument)
    else if current.value !in s then Success((s, false))
    else
      var removed := Remove(s, current).value;
      var rest, value := removed.0, removed.1;
      if OverlapsAny(rest, replacement.value) then
        match PutValue(rest, current, value)
        case Failure(err) => Failure(err)
        case Success(put) =>
          RemoveThenPutBack(s, current.value);
          Success((put.0, false))
      else
        var put := PutValue(rest, replacement, value).value;
        Success((put.0, true))
  }

  /** `changeEdges` with the rollback the documentation promises: when the replacement overlaps, the
      removed pair is restored as it was and the series is left unchanged. */
  function ChangeEdgesRestoring<V>(s: Series<V>, current: Option<Interval>, replacement: Option<Interval>)
    : (r: Result<(Series<V>, bool)>)
    ensures r.Failure? <==> current.None? || replacement.None?
    ensures r.Failure? ==> r.error == NullArgument
    ensures r.Success? && !r.value.1 ==> r.value.0 == s
    ensures r.Success? ==> (r.value.1 <==> current.value in s && !OverlapsAny(s - {current.value}, replacement.value))
    ensures r.Success? && r.value.1 ==> r.value.0 == (s - {current.value})[replacement.value := s[current.value]]
  {
    if current.None? || replacement.None? then Failure(NullArgument)
    else if current.value !in s then Success((s, false))
    else
      var removed := Remove(s, current).value;
      var rest, value := removed.0, removed.1;
      if OverlapsAny(rest, replacement.value) then
        RemoveThenPutBack(s, current.value);
        Success((rest[current.value := value.value], false))
      else
        var put := PutValue(rest, replacement, value).value;
        Success((put.0, true))
  }

  /** Putting a removed key back with its value gives the series it was removed from. */
  lemma RemoveThenPutBack<V>(s: Series<V>, k: Interval)
    requires k in s
    ensures (s - {k})[k := s[k]] == s
  {
  }

  /** The rollback of `changeEdges` loses the pair it should restore. `putValue((10,20))` and then
      `putValue((20,20))` both succeed, since (10,20) does not count the single point on its end as an
      overlap; moving (10,20) to (15,25) is refused because (20,20) overlaps (15,25), and putting
      (10,20) back is refused because (20,20) overlaps (10,20). */
  lemma ChangeEdgesRollbackRefused()
    ensures var a, b := Make(Some(10), Some(20)), Make(Some(20), Some(20));
      var built := PutValue(PutValue(map[], Some(a), Some(1)).value.0, Some(b), Some(2));
      && built.Success?
      && ChangeEdges(built.value.0, Some(a), Some(Make(Some(15), Some(25)))) == Failure(IllegalOverlap)
      && ChangeEdgesRestoring(built.value.0, Some(a), Some(Make(Some(15), Some(25)))) == Success((built.value.0, false))
  {
    var a, b, n := Make(Some(10), Some(20)), Make(Some(20), Some(20)), Make(Some(15), Some(25));
    BuildWithEndPoint();
    assert IsOverlap(b, Some(n)) && IsOverlap(b, Some(a)) by {
      IntervalFacts.IsOverlapMeaning(b, n);
      IntervalFacts.IsOverlapMeaning(b, a);
    }
    RollbackRefusedWhenCurrentOverlaps(map[a := 1, b := 2], a, n, b);
  }

  /** `putValue((10,20))` and then `putValue((20,20))` both succeed. */
  lemma BuildWithEndPoint()
    ensures var a, b := Make(Some(10), Some(20)), Make(Some(20), Some(20));
      PutValue(PutValue(map[], Some(a), Some(1)).value.0, Some(b), Some(2)) == Success((map[a := 1, b := 2], None))
  {
    var a, b := Make(Some(10), Some(20)), Make(Some(20), Some(20));
    assert !IsOverlap(a, Some(b));
    assert !OverlapsAny(map[a := 1], b);
  }

  /** The rollback is refused whenever some remaining key overlaps both the replacement and the
      current key. The converse fails: two different keys can each overlap one of them. */
  lemma RollbackRefusedWhenCurrentOverlaps<V>(s: Series<V>, current: Interval, replacement: Interval, k: Interval)
    requires current in s && k in s && k != current
    requires IsOverlap(k, Some(replacement)) && IsOverlap(k, Some(current))
    ensures ChangeEdges(s, Some(current), Some(replacement)) == Failure(IllegalOverlap)
    ensures ChangeEdgesRestoring(s, Some(current), Some(replacement)) == Success((s, false))
  {
    assert OverlapsAny(s - {current}, replacement) && OverlapsAny(s - {current}, current) by {
      assert k in s - {current};
    }
  }

  /** The rollback can be refused with no remaining key overlapping both intervals. In
      {(10,20):1, (20,20):2, (30,40):3}, moving (10,20) to (35,36) meets (30,40), and putting (10,20)
      back meets (20,20); neither of them overlaps the other interval. */
  lemma RollbackRefusedWithoutCommonKey()
    ensures var a, b, c, n := Make(Some(10), Some(20)), Make(Some(20), Some(20)), Make(Some(30), Some(40)), Make(Some(35), Some(36));
      var s := map[a := 1, b := 2, c := 3];
      && NonOverlapping(s)
      && ChangeEdges(s, Some(a), Some(n)) == Failure(IllegalOverlap)
      && forall k | k in s - {a} :: !(IsOverlap(k, Some(n)) && IsOverlap(k, Some(a)))
  {
    var a, b, c, n := Make(Some(10), Some(20)), Make(Some(20), Some(20)), Make(Some(30), Some(40)), Make(Some(35), Some(36));
    var s := map[a := 1, b := 2, c := 3];
    assert s - {a} == map[b := 2, c := 3];
    assert IsOverlap(c, Some(n)) && IsOverlap(b, Some(a)) by {
      IntervalFacts.IsOverlapMeaning(c, n);
      IntervalFacts.IsOverlapMeaning(b, a);
    }
    assert !IsOverlap(b, Some(n)) && !IsOverlap(c, Some(a)) by {
      IntervalFacts.IsOverlapMeaning(b, n);
      IntervalFacts.IsOverlapMeaning(c, a);
    }
    ThreeKeysSeparated(s, a, b, c);
  }

  /** A successful `changeEdges` keeps the series free of overlaps, single-point keys or not: either
      nothing changed, or the replacement went in through `putValue`'s check. */
  lemma ChangeEdgesKeepsNonOverlapping<V>(s: Series<V>, current: Interval, replacement: Interval)
    requires NonOverlapping(s)
    ensures ChangeEdges(s, Some(current), Some(replacement)).Success? ==>
      NonOverlapping(ChangeEdges(s, Some(current), Some(replacement)).value.0)
  {
    if current in s && !OverlapsAny(s - {current}, replacement) {
      PutValueKeepsNonOverlapping(s - {current}, replacement, s[current]);
    }
  }

  /** Without single-point keys the rollback never meets an overlap, so the written `changeEdges` and
      the restoring one agree, and the series stays free of overlaps. */
  lemma ChangeEdgesAgreesWithoutSinglePoints<V>(s: Series<V>, current: Interval, replacement: Interval)
    requires NonOverlapping(s) && NoSinglePoints(s)
    ensures ChangeEdges(s, Some(current), Some(replacement)) == ChangeEdgesRestoring(s, Some(current), Some(replacement))
    ensures NonOverlapping(ChangeEdges(s, Some(current), Some(replacement)).value.0)
  {
    if current in s {
      var rest := s - {current};
      if OverlapsAny(rest, replacement) {
        forall k | k in rest
          ensures !IsOverlap(k, Some(current))
        {
          IntervalFacts.SeparatedNotOverlap(k, current);
        }
        assert !OverlapsAny(rest, current);
      } else {
        assert NonOverlapping(rest);
        PutValueKeepsNonOverlapping(rest, replacement, s[current]);
      }
    }
  }

  // ---------------------------------------------------------------------------------------------
  // erase

  /** What `erase` leaves of a key `k` it overlaps: nothing when the overlap covers `k`, otherwise the
      part before the overlap and the part after it. */
  function Pieces(k: Interval, e: Interval): (r: seq<Interval>)
    requires IsOverlap(k, Some(e))
    ensures |r| <= 2
  {
    var ov := Overlap(k, Some(e)).value;
    if ov.start == k.start then
      if ov.end == k.end then [] else [Make(ov.end, k.end)]
    else if ov.end == k.end then [Make(k.start, ov.start)]
    else [Make(k.start, ov.start), Make(ov.end, k.end)]
  }

  /** `p` is a piece `erase` leaves of `k`. */
  predicate PieceOf(p: Interval, k: Interval, e: Interval) {
    IsOverlap(k, Some(e)) && p in Pieces(k, e)
  }

  /** `putValue` of each interval in turn, all with the same value. */
  function PutAll<V>(s: Series<V>, ps: seq<Interval>, v: Option<V>): (r: Result<Series<V>>)
    decreases |ps|
    ensures ps != [] && v.None? ==> r == Failure(NullArgument)
    ensures r.Success? ==> forall k :: k in r.value <==> k in s || k in ps
    ensures r.Success? ==> forall p | p in ps :: r.value[p] == v.value
    ensures r.Success? ==> forall k | k in s && k !in ps :: r.value[k] == s[k]
    ensures r.Failure? ==> r.error == NullArgument || r.error == IllegalOverlap
  {
    if ps == [] then Success(s)
    else
      match PutValue(s, Some(ps[0]), v)
      case Failure(err) => Failure(err)
      case Success(put) =>
        var r := PutAll(put.0, ps[1..], v);
        HeadOrTail(ps);
        r
  }

  /** Every element of a non-empty list is its head or in its tail. */
  lemma HeadOrTail(ps: seq<Interval>)
    requires ps != []
    ensures forall p :: p in ps <==> p == ps[0] || p in ps[1..]
  {
    assert ps == [ps[0]] + ps[1..];
  }

  /** One pass of the loop of `erase`, for the overlapped key `k`. `erase.getStart().equals(...)` fails on
      an overlap with an infinite start; an overlap that is a single point is skipped. */
  function EraseStep<V>(s: Series<V>, k: Interval, e: Interval): (r: Result<Series<V>>)
    requires IsOverlap(k, Some(e))
    ensures r.Success? ==> forall j | j in s && j != k && j !in Pieces(k, e) :: j in r.value && r.value[j] == s[j]
    ensures r.Success? ==> forall j | j in r.value :: j in s || j in Pieces(k, e)
  {
    var ov := Overlap(k, Some(e)).value;
    if ov.start.None? then Failure(NullDereference)
    else if ov.end.Some? && ov.start.value == ov.end.value then Success(s)
    else
      var value := if k in s then Some(s[k]) else None;
      PutAll(s - {k}, Pieces(k, e), value)
  }

  /** The loop of `erase` over the overlapped keys, in the order the list holds them. */
  function EraseAll<V>(s: Series<V>, e: Interval, order: seq<Interval>): (r: Result<Series<V>>)
    requires forall k | k in order :: IsOverlap(k, Some(e))
    ensures r.Success? ==> forall j | j in s && j !in order :: j in r.value
    decreases |order|
  {
    if order == [] then Success(s)
    else
      match EraseStep(s, order[0], e)
      case Failure(err) => Failure(err)
      case Success(s1) => EraseAll(s1, e, order[1..])
  }

  /** `order` lists every element of `keys` exactly once. */
  ghost predicate Enumerates(order: seq<Interval>, keys: set<Interval>) {
    && (forall i, j | 0 <= i < j < |order| :: order[i] != order[j])
    && (forall k :: k in order <==> k in keys)
  }

  /** `erase`: carve `e` out of every key it overlaps. The Java loop visits the keys `getOverlapedWith`
      lists, in the HashMap's order; `order` is that list. */
  function Erase<V>(s: Series<V>, e: Option<Interval>, order: seq<Interval>): (r: Result<Series<V>>)
    requires e.Some? ==> Enumerates(order, GetOverlapedWith(s, e, false).value)
    ensures e.None? ==> r == Failure(NullArgument)
    ensures e.Some? && order == [] ==> r == Success(s)
  {
    if e.None? then Failure(NullArgument)
    else EraseAll(s, e.value, order)
  }

  /** `insertNew`: `erase` the interval, then `putValue` it. */
  function InsertNew<V>(s: Series<V>, e: Option<Interval>, v: Option<V>, order: seq<Interval>): (r: Result<Series<V>>)
    requires e.Some? ==> Enumerates(order, GetOverlapedWith(s, e, false).value)
    ensures e.None? || v.None? ==> r == Failure(NullArgument)
    ensures r.Success? ==> e.Some? && v.Some? && e.value in r.value && r.value[e.value] == v.value
  {
    if e.None? || v.None? then Failure(NullArgument)
    else
      match Erase(s, e, order)
      case Failure(err) => Failure(err)
      case Success(s1) =>
        match PutValue(s1, e, v)
        case Failure(err) => Failure(err)
        case Success(put) => Success(put.0)
  }

  // ---------------------------------------------------------------------------------------------
  // Geometry of the pieces

  /** Whatever is separated from an interval is separated from each part of it. */
  lemma SubsetSeparated(p: Interval, o: Interval, k: Interval)
    requires Subset(p, o) && Separated(o, k)
    ensures Separated(p, k) && Separated(k, p)
  {
  }

  /** Only a single point is separated from itself. */
  lemma SelfSeparatedIsSinglePoint(a: Interval)
    requires Separated(a, a)
    ensures Degenerate(a)
  {
  }

  /** The conditions under which `erase` carves `e` out of `k` without failing. */
  predicate Carvable(k: Interval, e: Interval) {
    && IsOverlap(k, Some(e)) && !Degenerate(k) && !Degenerate(e)
    && (k.start.Some? || e.start.Some?)
  }

  /** The overlap of two proper intervals is proper, with a finite start when either start is. */
  lemma CarvedOverlapIsProper(k: Interval, e: Interval)
    requires Carvable(k, e)
    ensures var ov := Overlap(k, Some(e)).value;
      ov.start.Some? && !Degenerate(ov) && ov == Bounds(OverlapStart(k.start, e.start), OverlapEnd(k.end, e.end))
  {
    IntervalFacts.OverlapEdges(k, e);
    IntervalFacts.IsOverlapMeaning(k, e);
  }

  /** The pieces are proper parts of `k`, other than `k`, separated from `e` and from each other. */
  lemma PiecesFacts(k: Interval, e: Interval)
    requires Carvable(k, e)
    ensures forall p | p in Pieces(k, e) :: Subset(p, k) && !Degenerate(p) && p != k && Separated(p, e)
    ensures forall p, q | p in Pieces(k, e) && q in Pieces(k, e) && p != q :: Separated(p, q)
  {
    CarvedOverlapIsProper(k, e);
    IntervalFacts.IsOverlapMeaning(k, e);
    forall p | p in Pieces(k, e)
      ensures Subset(p, k) && !Degenerate(p) && p != k && Separated(p, e)
    {
      if p == k {
        IntervalFacts.SeparatedNotOverlap(k, e);
      }
    }
  }

  /** Every point of `k` outside `e` lies in a piece. */
  lemma PiecesCover(k: Interval, e: Interval, x: int)
    requires Carvable(k, e)
    requires Contains(k, x) && !Contains(e, x)
    ensures exists p | p in Pieces(k, e) :: Contains(p, x)
  {
    CarvedOverlapIsProper(k, e);
    var ps := Pieces(k, e);
    if e.start.Some? && x < e.start.value {
      assert Contains(ps[0], x);
    } else {
      assert Contains(ps[|ps| - 1], x);
    }
  }

  // ---------------------------------------------------------------------------------------------
  // The erase loop

  /** Unvisited keys keep their value. */
  ghost predicate KeptAsIs<V>(s0: Series<V>, done: set<Interval>, cur: Series<V>) {
    forall k | k in s0 && k !in done :: k in cur && cur[k] == s0[k]
  }

  /** The pieces of visited keys carry their value. */
  ghost predicate PiecesPlaced<V>(s0: Series<V>, e: Interval, done: set<Interval>, cur: Series<V>) {
    forall o, p | o in done && o in s0 && PieceOf(p, o, e) :: p in cur && cur[p] == s0[o]
  }

  /** Visited keys are gone. */
  ghost predicate AllGone<V>(done: set<Interval>, cur: Series<V>) {
    forall o | o in done :: o !in cur
  }

  /** Every key present is an unvisited key or a piece of a visited one. */
  ghost predicate Traced<V>(s0: Series<V>, e: Interval, done: set<Interval>, cur: Series<V>) {
    forall k | k in cur :: (k in s0 && k !in done) || exists o | o in done && o in s0 :: PieceOf(k, o, e)
  }

  /** What the loop keeps, with `done` the keys already visited: unvisited keys keep their value,
      visited keys are gone and their pieces carry their value, and nothing else is present. */
  ghost predicate Carved<V>(s0: Series<V>, e: Interval, done: set<Interval>, cur: Series<V>) {
    KeptAsIs(s0, done, cur) && PiecesPlaced(s0, e, done, cur) && AllGone(done, cur) && Traced(s0, e, done, cur)
  }

  /** The assumptions of the erase theorems: the series keeps its invariant without single points, `e`
      is not a single point, and no overlap has an infinite start. */
  ghost predicate EraseReady<V>(s: Series<V>, e: Interval) {
    && NonOverlapping(s) && NoSinglePoints(s) && !Degenerate(e)
    && forall k | k in s && IsOverlap(k, Some(e)) :: k.start.Some? || e.start.Some?
  }

  /** Every key present during the loop is proper and separated from the unvisited overlapped key `o`
      and from its pieces. */
  lemma CarvedKeysClearOf<V>(s0: Series<V>, e: Interval, done: set<Interval>, cur: Series<V>, o: Interval)
    requires EraseReady(s0, e) && Carved(s0, e, done, cur)
    requires done <= s0.Keys && o in s0 && o !in done && IsOverlap(o, Some(e))
    ensures forall k | k in cur && k != o :: !Degenerate(k) && Separated(k, o)
    ensures forall k, p | k in cur && k != o && p in Pieces(o, e) :: k != p && Separated(k, p)
  {
    PiecesFacts(o, e);
    forall k | k in cur && k != o
      ensures !Degenerate(k) && Separated(k, o)
      ensures forall p | p in Pieces(o, e) :: k != p && Separated(k, p)
    {
      if !(k in s0 && k !in done) {
        var o' :| o' in done && o' in s0 && PieceOf(k, o', e);
        PiecesFacts(o', e);
        SubsetSeparated(k, o', o);
      }
      forall p | p in Pieces(o, e)
        ensures k != p && Separated(k, p)
      {
        SubsetSeparated(p, o, k);
        if k == p {
          SelfSeparatedIsSinglePoint(k);
        }
      }
    }
  }

  /** Putting intervals that are new, overlap no present key and do not overlap each other succeeds and
      adds them all. */
  lemma {:induction false} PutAllFresh<V>(s: Series<V>, ps: seq<Interval>, v: V)
    requires forall p | p in ps :: p !in s && forall k | k in s :: !IsOverlap(k, Some(p))
    requires forall i, j | 0 <= i < j < |ps| :: ps[i] != ps[j] && !IsOverlap(ps[i], Some(ps[j]))
    ensures PutAll(s, ps, Some(v)).Success?
    decreases |ps|
  {
    if ps != [] {
      assert !OverlapsAny(s, ps[0]);
      var s1 := PutValue(s, Some(ps[0]), Some(v)).value.0;
      forall p | p in ps[1..]
        ensures p !in s1 && forall k | k in s1 :: !IsOverlap(k, Some(p))
      {
        var j :| 1 <= j < |ps| && ps[j] == p;
      }
      forall i, j | 0 <= i < j < |ps[1..]|
        ensures ps[1..][i] != ps[1..][j] && !IsOverlap(ps[1..][i], Some(ps[1..][j]))
      {
        assert ps[1..][i] == ps[i + 1] && ps[1..][j] == ps[j + 1];
      }
      PutAllFresh(s1, ps[1..], v);
    }
  }

  /** The two pieces of a key, when there are two, differ and do not overlap. */
  lemma PiecesApart(k: Interval, e: Interval)
    requires Carvable(k, e)
    ensures var ps := Pieces(k, e);
      forall i, j | 0 <= i < j < |ps| :: ps[i] != ps[j] && !IsOverlap(ps[i], Some(ps[j]))
  {
    CarvedOverlapIsProper(k, e);
    PiecesFacts(k, e);
    var ps := Pieces(k, e);
    if |ps| == 2 {
      assert ps[0].end != ps[1].end;
      IntervalFacts.SeparatedNotOverlap(ps[0], ps[1]);
    }
  }

  /** Intervals separated from and different from every key of `rest` are new to it and overlap none of
      its keys. */
  lemma ClearOf<V>(rest: Series<V>, ps: seq<Interval>)
    requires forall k | k in rest :: !Degenerate(k)
    requires forall k, p | k in rest && p in ps :: k != p && Separated(k, p)
    ensures forall p | p in ps :: p !in rest && forall k | k in rest :: !IsOverlap(k, Some(p))
  {
    forall p, k | p in ps && k in rest
      ensures !IsOverlap(k, Some(p))
    {
      IntervalFacts.SeparatedNotOverlap(k, p);
    }
  }

  /** No piece of a visited key is the unvisited key `o`: it would be separated from itself. */
  lemma PieceIsNotUnvisited<V>(s0: Series<V>, e: Interval, o': Interval, p: Interval, o: Interval)
    requires EraseReady(s0, e)
    requires o' in s0 && o in s0 && o' != o && PieceOf(p, o', e)
    ensures p != o
  {
    if p == o {
      assert Carvable(o', e);
      PiecesFacts(o', e);
      SubsetSeparated(p, o', o);
      SelfSeparatedIsSinglePoint(o);
    }
  }

  /** The shape of one pass: the keys other than `o` stay, the pieces of `o` come with its value, and
      nothing else is present. */
  ghost predicate StepShape<V>(s0: Series<V>, e: Interval, cur: Series<V>, o: Interval, next: Series<V>)
    requires o in s0 && IsOverlap(o, Some(e))
  {
    && (forall k | k in cur && k != o :: k in next && next[k] == cur[k])
    && (forall p | p in Pieces(o, e) :: p in next && next[p] == s0[o])
    && (forall k | k in next :: (k in cur && k != o) || k in Pieces(o, e))
    && o !in next
  }

  lemma StepKeeps<V>(s0: Series<V>, e: Interval, done: set<Interval>, cur: Series<V>, o: Interval, next: Series<V>)
    requires o in s0 && IsOverlap(o, Some(e)) && StepShape(s0, e, cur, o, next)
    requires KeptAsIs(s0, done, cur)
    ensures KeptAsIs(s0, done + {o}, next)
  {
  }

  lemma StepPlaces<V>(s0: Series<V>, e: Interval, done: set<Interval>, cur: Series<V>, o: Interval, next: Series<V>)
    requires EraseReady(s0, e) && done <= s0.Keys
    requires o in s0 && o !in done && IsOverlap(o, Some(e)) && StepShape(s0, e, cur, o, next)
    requires PiecesPlaced(s0, e, done, cur)
    ensures PiecesPlaced(s0, e, done + {o}, next)
  {
    forall o', p | o' in done + {o} && o' in s0 && PieceOf(p, o', e)
      ensures p in next && next[p] == s0[o']
    {
      if o' == o {
        assert p in Pieces(o, e);
      } else {
        assert o' in done;
        assert p in cur && cur[p] == s0[o'];
        PieceIsNotUnvisited(s0, e, o', p, o);
      }
    }
  }

  lemma StepRemoves<V>(s0: Series<V>, e: Interval, done: set<Interval>, cur: Series<V>, o: Interval, next: Series<V>)
    requires EraseReady(s0, e) && done <= s0.Keys && Carvable(o, e)
    requires o in s0 && StepShape(s0, e, cur, o, next)
    requires AllGone(done, cur)
    ensures AllGone(done + {o}, next)
  {
    forall o' | o' in done + {o}
      ensures o' !in next
    {
      if o' != o && o' in Pieces(o, e) {
        PiecesFacts(o, e);
        SubsetSeparated(o', o, o');
        SelfSeparatedIsSinglePoint(o');
      }
    }
  }

  lemma StepTraces<V>(s0: Series<V>, e: Interval, done: set<Interval>, cur: Series<V>, o: Interval, next: Series<V>)
    requires o in s0 && IsOverlap(o, Some(e)) && StepShape(s0, e, cur, o, next)
    requires Traced(s0, e, done, cur)
    ensures Traced(s0, e, done + {o}, next)
  {
    forall k | k in next
      ensures (k in s0 && k !in done + {o}) || exists o' | o' in done + {o} && o' in s0 :: PieceOf(k, o', e)
    {
      if k in Pieces(o, e) {
        assert PieceOf(k, o, e);
      } else if !(k in s0 && k !in done) {
        var o' :| o' in done && o' in s0 && PieceOf(k, o', e);
        assert o' in done + {o};
      }
    }
  }

  /** One pass of the loop keeps `Carved`, with the visited key added to `done`. */
  lemma EraseStepCarves<V>(s0: Series<V>, e: Interval, done: set<Interval>, cur: Series<V>, o: Interval)
    requires EraseReady(s0, e) && Carved(s0, e, done, cur)
    requires done <= s0.Keys && o in s0 && o !in done && IsOverlap(o, Some(e))
    ensures EraseStep(cur, o, e).Success?
    ensures Carved(s0, e, done + {o}, EraseStep(cur, o, e).value)
  {
    assert Carvable(o, e);
    CarvedOverlapIsProper(o, e);
    PiecesFacts(o, e);
    var ps, rest := Pieces(o, e), cur - {o};
    CarvedKeysClearOf(s0, e, done, cur, o);
    ClearOf(rest, ps);
    PiecesApart(o, e);
    PutAllFresh(rest, ps, s0[o]);
    assert EraseStep(cur, o, e) == PutAll(rest, ps, Some(s0[o]));
    var next := EraseStep(cur, o, e).value;
    assert StepShape(s0, e, cur, o, next);
    StepKeeps(s0, e, done, cur, o, next);
    StepPlaces(s0, e, done, cur, o, next);
    StepRemoves(s0, e, done, cur, o, next);
    StepTraces(s0, e, done, cur, o, next);
  }

  /** The loop keeps `Carved` over any list of distinct unvisited overlapped keys. */
  lemma {:induction false} EraseAllCarves<V>(s0: Series<V>, e: Interval, done: set<Interval>, cur: Series<V>, order: seq<Interval>)
    requires EraseReady(s0, e) && Carved(s0, e, done, cur) && done <= s0.Keys
    requires forall k | k in order :: k in s0 && k !in done && IsOverlap(k, Some(e))
    requires forall i, j | 0 <= i < j < |order| :: order[i] != order[j]
    ensures EraseAll(cur, e, order).Success?
    ensures Carved(s0, e, done + Elements(order), EraseAll(cur, e, order).value)
    decreases |order|
  {
    if order == [] {
      assert done + Elements(order) == done;
    } else {
      var o := order[0];
      EraseStepCarves(s0, e, done, cur, o);
      var next := EraseStep(cur, o, e).value;
      EraseAllFirst(cur, e, order);
      forall k | k in order[1..]
        ensures k in s0 && k !in done + {o} && IsOverlap(k, Some(e))
      {
        var j :| 1 <= j < |order| && order[j] == k;
      }
      forall i, j | 0 <= i < j < |order[1..]|
        ensures order[1..][i] != order[1..][j]
      {
        assert order[1..][i] == order[i + 1] && order[1..][j] == order[j + 1];
      }
      EraseAllCarves(s0, e, done + {o}, next, order[1..]);
      DoneAfterFirst(done, order);
    }
  }

  /** The loop after its first pass, when that pass succeeds. */
  lemma EraseAllFirst<V>(s: Series<V>, e: Interval, order: seq<Interval>)
    requires forall k | k in order :: IsOverlap(k, Some(e))
    requires order != [] && EraseStep(s, order[0], e).Success?
    ensures EraseAll(s, e, order) == EraseAll(EraseStep(s, order[0], e).value, e, order[1..])
  {
  }

  /** The elements of a list, as a set. */
  ghost function Elements(xs: seq<Interval>): (r: set<Interval>)
    ensures forall k :: k in r <==> k in xs
  {
    set k | k in xs
  }

  /** Visiting the head of a list and then its tail visits the whole list. */
  lemma DoneAfterFirst(done: set<Interval>, xs: seq<Interval>)
    requires xs != []
    ensures (done + {xs[0]}) + Elements(xs[1..]) == done + Elements(xs)
  {
    assert xs == [xs[0]] + xs[1..];
  }

  /** `erase` on a series with its invariant and no single points: it succeeds; keys it does not overlap
      keep their value; overlapped keys are gone and their pieces carry their value; nothing else is
      present; no key is left overlapping `e`; and the invariant holds again. */
  lemma EraseCarves<V>(s: Series<V>, e: Interval, order: seq<Interval>)
    requires Enumerates(order, GetOverlapedWith(s, Some(e), false).value)
    requires EraseReady(s, e)
    ensures Erase(s, Some(e), order).Success?
    ensures var r := Erase(s, Some(e), order).value;
      && (forall k | k in s && !IsOverlap(k, Some(e)) :: k in r && r[k] == s[k])
      && (forall k | k in s && IsOverlap(k, Some(e)) :: k !in r)
      && (forall k, p | k in s && PieceOf(p, k, e) :: p in r && r[p] == s[k])
      && (forall k | k in r :: (k in s && !IsOverlap(k, Some(e))) || exists o | o in s :: PieceOf(k, o, e))
      && (forall k | k in r :: !IsOverlap(k, Some(e)) && Separated(k, e))
      && NonOverlapping(r) && NoSinglePoints(r)
  {
    var ov := GetOverlapedWith(s, Some(e), false).value;
    assert Carved(s, e, {}, s);
    EraseAllCarves(s, e, {}, s, order);
    var r := Erase(s, Some(e), order).value;
    assert Elements(order) == ov;
    assert Carved(s, e, ov, r);
    forall k | k in r
      ensures !Degenerate(k) && Separated(k, e) && !IsOverlap(k, Some(e))
      ensures (k in s && !IsOverlap(k, Some(e))) || exists o | o in s :: PieceOf(k, o, e)
    {
      if k in s && k !in ov {
        IntervalFacts.NotOverlapSeparates(k, e);
        IntervalFacts.IsOverlapSymmetric(k, e);
      } else {
        var o :| o in ov && o in s && PieceOf(k, o, e);
        PiecesFacts(o, e);
        IntervalFacts.SeparatedNotOverlap(k, e);
      }
    }
    forall a, b | a in r && b in r && a != b
      ensures Separated(a, b)
    {
      RemainingKeysSeparated(s, e, ov, r, a, b);
    }
  }

  /** Two distinct keys left by `erase` are separated. */
  lemma RemainingKeysSeparated<V>(s: Series<V>, e: Interval, ov: set<Interval>, r: Series<V>, a: Interval, b: Interval)
    requires EraseReady(s, e) && ov <= s.Keys && Carved(s, e, ov, r)
    requires forall k | k in s && IsOverlap(k, Some(e)) :: k in ov
    requires a in r && b in r && a != b
    ensures Separated(a, b)
  {
    var aKept, bKept := a in s && a !in ov, b in s && b !in ov;
    if aKept && bKept {
    } else if aKept {
      var o :| o in ov && o in s && PieceOf(b, o, e);
      PiecesFacts(o, e);
      SubsetSeparated(b, o, a);
    } else if bKept {
      var o :| o in ov && o in s && PieceOf(a, o, e);
      PiecesFacts(o, e);
      SubsetSeparated(a, o, b);
    } else {
      var oa :| oa in ov && oa in s && PieceOf(a, oa, e);
      var ob :| ob in ov && ob in s && PieceOf(b, ob, e);
      PiecesFacts(oa, e);
      PiecesFacts(ob, e);
      if oa != ob {
        SubsetSeparated(a, oa, ob);
        SubsetSeparated(b, ob, a);
      }
    }
  }

  /** On points: after `erase`, no key has a point strictly inside `e`, and every point a key held
      outside `e` is still held, by a key with the same value. */
  lemma EraseOnPoints<V>(s: Series<V>, e: Interval, order: seq<Interval>, x: int)
    requires Enumerates(order, GetOverlapedWith(s, Some(e), false).value)
    requires EraseReady(s, e)
    ensures Erase(s, Some(e), order).Success?
    ensures var r := Erase(s, Some(e), order).value;
      && (forall k | k in r && Contains(k, x) :: !Interior(e, x))
      && (forall k | k in s && Contains(k, x) && !Contains(e, x) :: exists k' | k' in r :: Contains(k', x) && r[k'] == s[k])
  {
    EraseCarves(s, e, order);
    var r := Erase(s, Some(e), order).value;
    forall k | k in s && Contains(k, x) && !Contains(e, x)
      ensures exists k' | k' in r :: Contains(k', x) && r[k'] == s[k]
    {
      if IsOverlap(k, Some(e)) {
        PiecesCover(k, e, x);
        var p :| p in Pieces(k, e) && Contains(p, x);
        assert PieceOf(p, k, e);
      } else {
        assert k in r;
      }
    }
  }

  /** `insertNew` on a series with its invariant and no single points: `e` carries `v`, every other key
      is what `erase` left, and the invariant holds again. */
  lemma InsertNewPlaces<V>(s: Series<V>, e: Interval, v: V, order: seq<Interval>)
    requires Enumerates(order, GetOverlapedWith(s, Some(e), false).value)
    requires EraseReady(s, e)
    ensures InsertNew(s, Some(e), Some(v), order).Success?
    ensures var r := InsertNew(s, Some(e), Some(v), order).value;
      var erased := Erase(s, Some(e), order).value;
      && r.Keys == erased.Keys + {e} && r[e] == v
      && (forall k | k in erased :: r[k] == erased[k])
      && NonOverlapping(r) && NoSinglePoints(r)
  {
    EraseCarves(s, e, order);
    var erased := Erase(s, Some(e), order).value;
    assert e !in erased by {
      if e in erased {
        SelfSeparatedIsSinglePoint(e);
      }
    }
    assert !OverlapsAny(erased, e);
    PutValueKeepsNonOverlapping(erased, e, v);
  }

  /** Erasing a single point changes nothing: every overlap it finds is that point, and is skipped. */
  lemma {:induction false} EraseSinglePointIsNoOp<V>(s: Series<V>, e: Interval, order: seq<Interval>)
    requires Degenerate(e)
    requires forall k | k in order :: IsOverlap(k, Some(e))
    ensures EraseAll(s, e, order) == Success(s)
    decreases |order|
  {
    if order != [] {
      IntervalFacts.OverlapEdges(order[0], e);
      EraseSinglePointIsNoOp(s, e, order[1..]);
    }
  }

  /** Erasing a key with an infinite start by an interval with an infinite start fails in
      `erase.getStart().equals(...)`. */
  lemma EraseInfiniteStartsFails()
    ensures var k := Make(None, Some(10));
      Erase(map[k := 1], Some(Make(None, Some(5))), [k]) == Failure(NullDereference)
  {
    var k, e := Make(None, Some(10)), Make(None, Some(5));
    assert IsOverlap(k, Some(e));
    assert GetOverlapedWith(map[k := 1], Some(e), false).value == {k};
  }

  /** Inserting a single point strictly inside a key is refused: `erase` skips the point overlap, so the
      key is still there when `putValue` checks. */
  lemma InsertNewSinglePointInsideRefused()
    ensures var k, p := Make(Some(10), Some(20)), Make(Some(15), Some(15));
      InsertNew(map[k := 1], Some(p), Some(2), [k]) == Failure(IllegalOverlap)
  {
    var k, p := Make(Some(10), Some(20)), Make(Some(15), Some(15));
    assert IsOverlap(k, Some(p));
    assert GetOverlapedWith(map[k := 1], Some(p), false).value == {k};
    EraseSinglePointIsNoOp(map[k := 1], p, [k]);
    assert OverlapsAny(map[k := 1], p);
  }

  /** An overlapped key that is a single point overlaps `e` in that point only, so its pass is skipped
      and the key stays. */
  lemma SinglePointKeySkipped<V>(s: Series<V>, k: Interval, e: Interval)
    requires IsOverlap(k, Some(e)) && Degenerate(k)
    ensures EraseStep(s, k, e) == Success(s)
  {
    IntervalFacts.OverlapEdges(k, e);
  }

  /** A single-point key inside the erased interval survives `erase` in either iteration order, although
      `erase` is meant to remove every key the erased interval covers. The series is the one
      `BuildWithEndPoint` builds with `putValue`; erasing (15,25) trims (10,20) to (10,15) and keeps
      (20,20), whose point lies strictly inside (15,25). */
  lemma EraseKeepsSinglePointKey()
    ensures var a, b, e := Make(Some(10), Some(20)), Make(Some(20), Some(20)), Make(Some(15), Some(25));
      var s, r := map[a := 1, b := 2], map[Make(Some(10), Some(15)) := 1, b := 2];
      && Enumerates([a, b], GetOverlapedWith(s, Some(e), false).value)
      && Enumerates([b, a], GetOverlapedWith(s, Some(e), false).value)
      && Erase(s, Some(e), [a, b]) == Success(r)
      && Erase(s, Some(e), [b, a]) == Success(r)
      && Contains(b, 20) && Interior(e, 20)
  {
    var a, b, e := Make(Some(10), Some(20)), Make(Some(20), Some(20)), Make(Some(15), Some(25));
    var s := map[a := 1, b := 2];
    assert IsOverlap(a, Some(e)) && IsOverlap(b, Some(e)) by {
      IntervalFacts.IsOverlapMeaning(a, e);
      IntervalFacts.IsOverlapMeaning(b, e);
    }
    assert GetOverlapedWith(s, Some(e), false).value == {a, b};
    TrimBeforeSinglePoint(s, a, b, e);
    EitherOrderWithSinglePoint(s, a, b, e, map[Make(Some(10), Some(15)) := 1, b := 2]);
  }

  /** When the pass over `a` gives `r` and `b` is a single point, both orders of the loop give `r`. */
  lemma EitherOrderWithSinglePoint<V>(s: Series<V>, a: Interval, b: Interval, e: Interval, r: Series<V>)
    requires IsOverlap(a, Some(e)) && IsOverlap(b, Some(e)) && Degenerate(b)
    requires EraseStep(s, a, e) == Success(r)
    ensures EraseAll(s, e, [a, b]) == Success(r)
    ensures EraseAll(s, e, [b, a]) == Success(r)
  {
    SinglePointKeySkipped(s, b, e);
    SinglePointKeySkipped(r, b, e);
    assert [a, b][1..] == [b] && [b, a][1..] == [a] && [a][1..] == [] && [b][1..] == [];
    assert EraseAll(s, e, [a]) == Success(r);
    assert EraseAll(s, e, [b, a]) == EraseAll(s, e, [a]);
  }

  /** The pass over (10,20) for the erased (15,25) keeps (10,15) next to (20,20). */
  lemma TrimBeforeSinglePoint(s: Series<int>, a: Interval, b: Interval, e: Interval)
    requires a == Make(Some(10), Some(20)) && b == Make(Some(20), Some(20)) && e == Make(Some(15), Some(25))
    requires s == map[a := 1, b := 2] && IsOverlap(a, Some(e))
    ensures EraseStep(s, a, e) == Success(map[Make(Some(10), Some(15)) := 1, b := 2])
  {
    var p := Make(Some(10), Some(15));
    TrimmedPiece(a, e);
    PieceBesidePoint(s - {a}, b, p);
    StepOnePiece(s, a, e, p);
  }

  /** (10,15) is put next to the single key (20,20). */
  lemma PieceBesidePoint(t: Series<int>, b: Interval, p: Interval)
    requires b == Make(Some(20), Some(20)) && p == Make(Some(10), Some(15)) && t == map[b := 2]
    ensures p !in t && !OverlapsAny(t, p)
    ensures t[p := 1] == map[p := 1, b := 2]
  {
    assert !IsOverlap(b, Some(p));
  }

  /** Erasing (15,25) from (10,20) leaves the one piece (10,15). */
  lemma TrimmedPiece(a: Interval, e: Interval)
    requires a == Make(Some(10), Some(20)) && e == Make(Some(15), Some(25)) && IsOverlap(a, Some(e))
    ensures Overlap(a, Some(e)).value == Make(Some(15), Some(20))
    ensures Pieces(a, e) == [Make(Some(10), Some(15))]
  {
    IntervalFacts.OverlapEdges(a, e);
  }

  /** A pass over a present key with one piece, fresh and free of overlaps, replaces the key by it. */
  lemma StepOnePiece<V>(s: Series<V>, k: Interval, e: Interval, p: Interval)
    requires k in s && IsOverlap(k, Some(e)) && Pieces(k, e) == [p]
    requires var ov := Overlap(k, Some(e)).value; ov.start.Some? && ov.end.Some? && ov.start != ov.end
    requires p !in s - {k} && !OverlapsAny(s - {k}, p)
    ensures EraseStep(s, k, e) == Success((s - {k})[p := s[k]])
  {
    PutOne(s - {k}, p, s[k]);
  }

  /** Putting a single fresh interval that overlaps no key adds it. */
  lemma PutOne<V>(s: Series<V>, p: Interval, v: V)
    requires p !in s && !OverlapsAny(s, p)
    ensures PutAll(s, [p], Some(v)) == Success(s[p := v])
  {
    assert [p][1..] == [];
  }

  /** Erasing the fully infinite interval empties a series with its invariant, without single points and
      with finite starts: every key overlaps it and leaves no piece. */
  lemma EraseEverythingEmpties<V>(s: Series<V>, order: seq<Interval>)
    requires NonOverlapping(s) && NoSinglePoints(s)
    requires forall k | k in s :: k.start.Some?
    requires Enumerates(order, GetOverlapedWith(s, Some(Make(None, None)), false).value)
    ensures Erase(s, Some(Make(None, None)), order) == Success(map[])
  {
    var e := Make(None, None);
    forall k | k in s
      ensures IsOverlap(k, Some(e)) && Pieces(k, e) == []
    {
      IntervalFacts.OverlapEdges(k, e);
    }
    EraseCarves(s, e, order);
    var r := Erase(s, Some(e), order).value;
    assert forall k | k in s :: !PieceOf(k, k, e) && forall p :: !PieceOf(p, k, e);
    assert r.Keys == {};
  }

  /** A single-point key survives erasing the fully infinite interval. */
  lemma EraseEverythingKeepsSinglePoint()
    ensures var k := Make(Some(15), Some(15));
      && Enumerates([k], GetOverlapedWith(map[k := 1], Some(Make(None, None)), false).value)
      && Erase(map[k := 1], Some(Make(None, None)), [k]) == Success(map[k := 1])
  {
    var k, e := Make(Some(15), Some(15)), Make(None, None);
    assert IsOverlap(k, Some(e)) by {
      IntervalFacts.IsOverlapMeaning(k, e);
    }
    assert GetOverlapedWith(map[k := 1], Some(e), false).value == {k};
    SinglePointKeySkipped(map[k := 1], k, e);
  }
}
