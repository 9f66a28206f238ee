/**
  The piecewise-linear focus curve the calibration tool builds: a
  `std::set<PwlPoint>` ordered by distance alone, into which `update`
  inserts each sample, keeping the smaller lens position when a distance
  is already present. The set is a strictly ascending sequence here, and
  distances are exact reals (they are `100 / d` for a 16-bit `d`).
 */
module Pwl {
  import opened Wrappers

  /** `PwlPoint`: an inverse focus distance in 1/m and the lens position that focuses there. */
  datatype Point = Point(distance: real, position: int)

  /** The order `std::set<PwlPoint>` keeps: strictly ascending distance, so no two points share one. */
  predicate Sorted(s: seq<Point>) {
    forall i, j :: 0 <= i < j < |s| ==> s[i].distance < s[j].distance
  }

  /** The distances present in the curve. */
  function Keys(s: seq<Point>): set<real> {
    set i | 0 <= i < |s| :: s[i].distance
  }

  /** The position stored for distance `d`, if any. */
  function Lookup(s: seq<Point>, d: real): (r: Option<int>)
    ensures r.Some? <==> d in Keys(s)
    decreases |s|
  {
    if |s| == 0 then None
    else if s[0].distance == d then Some(s[0].position)
    else
      assert s == [s[0]] + s[1..];
      KeysCons(s[0], s[1..]);
      Lookup(s[1..], d)
  }

  /** The smaller of two positions. */
  function Min(a: int, b: int): (m: int)
    ensures m <= a && m <= b && (m == a || m == b)
  {
    if a <= b then a else b
  }

  /** A stored position merged with a new one for the same distance: the smaller wins. */
  function Merge(stored: Option<int>, position: int): int {
    match stored
    case None => position
    case Some(p) => Min(p, position)
  }

  /** Putting a point in front adds its distance to the keys. */
  lemma KeysCons(p: Point, s: seq<Point>)
    ensures Keys([p] + s) == {p.distance} + Keys(s)
  {
    var t := [p] + s;
    forall d | d in Keys(t)
      ensures d in {p.distance} + Keys(s)
    {
      var i :| 0 <= i < |t| && t[i].distance == d;
      if i > 0 {
        assert t[i] == s[i - 1];
      }
    }
    forall d | d in Keys(s)
      ensures d in Keys(t)
    {
      var i :| 0 <= i < |s| && s[i].distance == d;
      assert t[i + 1] == s[i];
    }
    assert t[0] == p;
  }

  /** A point below every key of a sorted curve can go in front of it. */
  lemma ConsSorted(p: Point, s: seq<Point>)
    requires Sorted(s)
    requires forall d :: d in Keys(s) ==> p.distance < d
    ensures Sorted([p] + s)
  {
    var t := [p] + s;
    forall i, j | 0 <= i < j < |t|
      ensures t[i].distance < t[j].distance
    {
      assert t[j] == s[j - 1];
      assert s[j - 1].distance in Keys(s);
      if i > 0 {
        assert t[i] == s[i - 1];
      }
    }
  }

  /** The tail of a sorted curve is sorted, and the head lies below all of it. */
  lemma SortedTail(s: seq<Point>)
    requires Sorted(s) && |s| > 0
    ensures Sorted(s[1..])
    ensures Keys(s) == {s[0].distance} + Keys(s[1..])
    ensures forall d :: d in Keys(s[1..]) ==> s[0].distance < d
  {
    assert s == [s[0]] + s[1..];
    KeysCons(s[0], s[1..]);
    forall d | d in Keys(s[1..])
      ensures s[0].distance < d
    {
      var i :| 0 <= i < |s[1..]| && s[1..][i].distance == d;
      assert s[1..][i] == s[i + 1];
    }
  }

  /**
    `update`: insert `n`; when its distance is taken, keep the stored point
    if its position is not larger, otherwise replace it by `n`.
   */
  function Update(s: seq<Point>, n: Point): (r: seq<Point>)
    requires Sorted(s)
    ensures Sorted(r)
    ensures Keys(r) == Keys(s) + {n.distance}
    ensures |s| <= |r| <= |s| + 1
    ensures |r| == |s| + 1 <==> n.distance !in Keys(s)
    decreases |s|
  {
    if |s| == 0 then
      KeysCons(n, s);
      assert [n] + s == [n];
      [n]
    else
      SortedTail(s);
      if n.distance < s[0].distance then
        KeysCons(n, s);
        ConsSorted(n, s);
        [n] + s
      else if n.distance == s[0].distance then
        if s[0].position <= n.position then s
        else
          KeysCons(n, s[1..]);
          ConsSorted(n, s[1..]);
          [n] + s[1..]
      else
        var rest := Update(s[1..], n);
        KeysCons(s[0], rest);
        ConsSorted(s[0], rest);
        [s[0]] + rest
  }

  /**
    The effect of `update` seen through `Lookup`: the new distance holds the
    smaller of the stored and the new position, every other distance keeps
    what it had.
   */
  lemma {:induction false} UpdateLookup(s: seq<Point>, n: Point, d: real)
    requires Sorted(s)
    ensures Lookup(Update(s, n), d) == if d == n.distance then Some(Merge(Lookup(s, d), n.position)) else Lookup(s, d)
    decreases |s|
  {
    if |s| > 0 {
      SortedTail(s);
      if n.distance < s[0].distance {
        assert ([n] + s)[1..] == s;
      } else if n.distance == s[0].distance {
        if s[0].position > n.position {
          assert ([n] + s[1..])[1..] == s[1..];
        }
      } else {
        var rest := Update(s[1..], n);
        assert ([s[0]] + rest)[1..] == rest;
        UpdateLookup(s[1..], n, d);
      }
    }
  }

  /** The first point of a curve is what a lookup of its distance finds. */
  lemma LookupHead(s: seq<Point>)
    requires |s| > 0
    ensures Lookup(s, s[0].distance) == Some(s[0].position)
  {
  }

  /** A sorted curve is determined by what it stores: two that agree on every lookup are equal. */
  lemma {:induction false} SortedUnique(a: seq<Point>, b: seq<Point>)
    requires Sorted(a) && Sorted(b)
    requires forall d :: Lookup(a, d) == Lookup(b, d)
    ensures a == b
    decreases |a|
  {
    if |a| == 0 {
      if |b| > 0 {
        LookupHead(b);
        assert false;
      }
    } else if |b| == 0 {
      LookupHead(a);
      assert false;
    } else {
      SortedTail(a);
      SortedTail(b);
      assert Lookup(a, a[0].distance).Some? && Lookup(b, b[0].distance).Some?;
      assert a[0].distance in Keys(b) && b[0].distance in Keys(a);
      assert a[0].distance == b[0].distance;
      assert Lookup(a, a[0].distance) == Lookup(b, a[0].distance);
      forall d
        ensures Lookup(a[1..], d) == Lookup(b[1..], d)
      {
        if d == a[0].distance {
          assert d !in Keys(a[1..]) && d !in Keys(b[1..]);
        } else {
          assert Lookup(a, d) == Lookup(a[1..], d);
          assert Lookup(b, d) == Lookup(b[1..], d);
        }
      }
      SortedUnique(a[1..], b[1..]);
      assert a == [a[0]] + a[1..] && b == [b[0]] + b[1..];
    }
  }

  /** Inserting the same point twice changes nothing the second time. */
  lemma UpdateIdempotent(s: seq<Point>, n: Point)
    requires Sorted(s)
    ensures Update(Update(s, n), n) == Update(s, n)
  {
    var once := Update(s, n);
    forall d
      ensures Lookup(Update(once, n), d) == Lookup(once, d)
    {
      UpdateLookup(once, n, d);
      UpdateLookup(s, n, d);
    }
    SortedUnique(Update(once, n), once);
  }

  /** The points of `samples` inserted one after the other, from left to right, into `s`. */
  function Fold(s: seq<Point>, samples: seq<Point>): (r: seq<Point>)
    requires Sorted(s)
    ensures Sorted(r)
    decreases |samples|
  {
    if |samples| == 0 then s else Fold(Update(s, samples[0]), samples[1..])
  }

  /** The smallest position any of `samples` gives for distance `d`, if one has that distance. */
  function MinPosition(samples: seq<Point>, d: real): Option<int>
    decreases |samples|
  {
    if |samples| == 0 then None
    else if samples[0].distance == d then Some(Merge(MinPosition(samples[1..], d), samples[0].position))
    else MinPosition(samples[1..], d)
  }

  /** The smaller of two optional positions, either of which may be missing. */
  function Combine(a: Option<int>, b: Option<int>): Option<int> {
    match b
    case None => a
    case Some(q) => Some(Merge(a, q))
  }

  /** Folding samples into a curve leaves, at every distance, the minimum over the curve and the samples. */
  lemma {:induction false} FoldLookup(s: seq<Point>, samples: seq<Point>, d: real)
    requires Sorted(s)
    ensures Lookup(Fold(s, samples), d) == Combine(Lookup(s, d), MinPosition(samples, d))
    decreases |samples|
  {
    if |samples| > 0 {
      var x := samples[0];
      FoldLookup(Update(s, x), samples[1..], d);
      UpdateLookup(s, x, d);
      if x.distance == d {
        CombineMerge(Lookup(s, d), MinPosition(samples[1..], d), x.position);
      }
    }
  }

  /** Taking a minimum early or late gives the same result: the new position may join either side. */
  lemma CombineMerge(stored: Option<int>, rest: Option<int>, p: int)
    ensures Combine(Some(Merge(stored, p)), rest) == Combine(stored, Some(Merge(rest, p)))
  {
  }

  /** The curve built from samples alone stores, for each distance, the smallest position sampled there. */
  lemma BuildIsPerKeyMinimum(samples: seq<Point>, d: real)
    ensures Lookup(Fold([], samples), d) == MinPosition(samples, d)
  {
    FoldLookup([], samples, d);
  }

  /** Folding one more sample is one more `update` on the folded curve. */
  lemma {:induction false} FoldSnoc(s: seq<Point>, samples: seq<Point>, x: Point)
    requires Sorted(s)
    ensures Fold(s, samples + [x]) == Update(Fold(s, samples), x)
    decreases |samples|
  {
    if |samples| == 0 {
      assert samples + [x] == [x];
    } else {
      assert (samples + [x])[0] == samples[0];
      assert (samples + [x])[1..] == samples[1..] + [x];
      FoldSnoc(Update(s, samples[0]), samples[1..], x);
    }
  }
}
