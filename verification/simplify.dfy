/** Douglas–Peucker simplification (`douglas_peucker` / `simplify`, four
    identical copies). A trace of three samples or more is split at the first
    sample farthest from the infinite line through its first and last samples
    when that distance exceeds the tolerance; the two halves are `p[..index]` and
    `p[index..]`, so the split sample starts the right half and its predecessor
    ends the left half. Otherwise only the first and last samples are kept.

    Distances are compared squared: the square root is monotone, so the
    arg-max and the tolerance test are unchanged for a tolerance `eps >= 0`. */
module Simplify {
  import opened Common
  import opened Geo

  /** Squared Euclidean length of a (latitude, longitude) difference. */
  function Norm2(dlat: real, dlong: real): (n: real)
    ensures n >= 0.0
  {
    dlat * dlat + dlong * dlong
  }

  /** `distance_point_line`, squared: the squared distance from `p` to its
      projection on the infinite line through `s` and `e` (the projection
      parameter is not clamped to the segment). A zero-length chord makes the
      source's parameter NaN, so no comparison with it ever holds; it is 0 here,
      which selects the same branches. */
  function LineDist2(p: Fix, s: Fix, e: Fix): (d: real)
    ensures d >= 0.0
  {
    var len2 := Norm2(e.lat - s.lat, e.long - s.long);
    if len2 == 0.0 then 0.0
    else
      var u := ((p.lat - s.lat) * (e.lat - s.lat) + (p.long - s.long) * (e.long - s.long)) / len2;
      Norm2(p.lat - (s.lat + u * (e.lat - s.lat)), p.long - (s.long + u * (e.long - s.long)))
  }

  /** The squared distance of sample `k` to the chord of `p`. */
  function ChordDist2(p: seq<Fix>, k: nat): real
    requires k < |p|
  {
    LineDist2(p[k], p[0], p[|p| - 1])
  }

  /** The line through two samples passes through the second one. */
  lemma LineThroughEnd(s: Fix, e: Fix)
    ensures LineDist2(e, s, e) == 0.0
  {
    var len2 := Norm2(e.lat - s.lat, e.long - s.long);
    if len2 != 0.0 {
      var u := ((e.lat - s.lat) * (e.lat - s.lat) + (e.long - s.long) * (e.long - s.long)) / len2;
      assert u == 1.0;
    }
  }

  /** The arg-max loop over samples `1 .. j - 1`: the greatest squared distance
      so far and the index where it first appeared (0 while nothing exceeded 0). */
  function ArgMax(p: seq<Fix>, j: nat): (r: (real, nat))
    requires 1 <= j <= |p|
    ensures r.0 >= 0.0 && r.1 < j
    ensures forall k :: 1 <= k < j ==> ChordDist2(p, k) <= r.0
    ensures r.1 == 0 ==> r.0 == 0.0
    ensures r.1 != 0 ==> ChordDist2(p, r.1) == r.0 && forall k :: 1 <= k < r.1 ==> ChordDist2(p, k) < r.0
    decreases j
  {
    if j == 1 then (0.0, 0)
    else
      var m := ArgMax(p, j - 1);
      var d := ChordDist2(p, j - 1);
      if d > m.0 then (d, j - 1) else m
  }

  /** `douglas_peucker(p, eps)` for a tolerance `eps >= 0`. */
  function DouglasPeucker(p: seq<Fix>, eps: real): (r: seq<Fix>)
    requires eps >= 0.0
    ensures |p| < 3 ==> r == p
    decreases |p|
  {
    if |p| < 3 then p
    else
      var m := ArgMax(p, |p|);
      if m.0 > eps * eps then
        DouglasPeucker(p[..m.1], eps) + DouglasPeucker(p[m.1..], eps)
      else
        [p[0], p[|p| - 1]]
  }

  /** When the tolerance is exceeded, the split index lies strictly inside the
      trace, so both halves are shorter and the source's `index > end` guard
      never fires. */
  lemma SplitInside(p: seq<Fix>, eps: real)
    requires eps >= 0.0 && |p| >= 3
    requires ArgMax(p, |p|).0 > eps * eps
    ensures 1 <= ArgMax(p, |p|).1 <= |p| - 2
  {
    LineThroughEnd(p[0], p[|p| - 1]);
    assert ChordDist2(p, |p| - 1) == 0.0;
  }

  /** All samples strictly between the ends lie within `eps` of the chord. */
  predicate Flat(p: seq<Fix>, eps: real) {
    forall k :: 1 <= k < |p| - 1 ==> ChordDist2(p, k) <= eps * eps
  }

  /** The output never grows, and an input of at least two samples keeps at
      least two. */
  lemma {:induction false} DouglasPeuckerSize(p: seq<Fix>, eps: real)
    requires eps >= 0.0
    ensures |DouglasPeucker(p, eps)| <= |p|
    ensures |p| >= 2 ==> |DouglasPeucker(p, eps)| >= 2
    ensures |p| >= 1 ==> |DouglasPeucker(p, eps)| >= 1
    decreases |p|
  {
    if |p| >= 3 {
      var m := ArgMax(p, |p|);
      if m.0 > eps * eps {
        SplitInside(p, eps);
        DouglasPeuckerSize(p[..m.1], eps);
        DouglasPeuckerSize(p[m.1..], eps);
      }
    }
  }

  /** A trace of three samples or more is reduced to its two ends exactly when
      every inner sample lies within the tolerance of the chord. */
  lemma TwoEndsIffFlat(p: seq<Fix>, eps: real)
    requires eps >= 0.0 && |p| >= 3
    ensures DouglasPeucker(p, eps) == [p[0], p[|p| - 1]] <==> Flat(p, eps)
    ensures |DouglasPeucker(p, eps)| == 2 <==> Flat(p, eps)
  {
    var m := ArgMax(p, |p|);
    LineThroughEnd(p[0], p[|p| - 1]);
    if m.0 > eps * eps {
      SplitInside(p, eps);
      DouglasPeuckerSize(p[..m.1], eps);
      DouglasPeuckerSize(p[m.1..], eps);
      assert !Flat(p, eps) by {
        assert ChordDist2(p, m.1) > eps * eps;
      }
    }
  }

  /** A zero-length chord (first and last samples at the same position) keeps
      only the two ends. */
  lemma ClosedLoopKeepsEnds(p: seq<Fix>, eps: real)
    requires eps >= 0.0 && |p| >= 3
    requires p[0].Pos() == p[|p| - 1].Pos()
    ensures DouglasPeucker(p, eps) == [p[0], p[|p| - 1]]
  {
    forall k | 1 <= k < |p| - 1 ensures ChordDist2(p, k) <= eps * eps {
      assert ChordDist2(p, k) == 0.0;
    }
    TwoEndsIffFlat(p, eps);
  }

  // ---------------------------------------------------------------------------
  // The output as a selection of input samples

  predicate Increasing(ix: seq<nat>) {
    forall a, b :: 0 <= a < b < |ix| ==> ix[a] < ix[b]
  }

  /** `r` is the samples of `p` at the indices `ix`, in that order. */
  predicate Picks(p: seq<Fix>, ix: seq<nat>, r: seq<Fix>) {
    |r| == |ix| && forall k :: 0 <= k < |ix| ==> ix[k] < |p| && r[k] == p[ix[k]]
  }

  /** Every sample between two consecutive kept ones lies within `eps` of the
      line through them. */
  predicate Covered(p: seq<Fix>, ix: seq<nat>, eps: real)
    requires forall k :: 0 <= k < |ix| ==> ix[k] < |p|
  {
    forall k, j :: 0 <= k < |ix| - 1 && ix[k] < j < ix[k + 1] ==> LineDist2(p[j], p[ix[k]], p[ix[k + 1]]) <= eps * eps
  }

  /** The kept indices of a trace: increasing, from its first to its last
      sample. */
  predicate Selection(p: seq<Fix>, ix: seq<nat>) {
    && Increasing(ix)
    && (forall k :: 0 <= k < |ix| ==> ix[k] < |p|)
    && (|p| > 0 ==> |ix| > 0 && ix[0] == 0 && ix[|ix| - 1] == |p| - 1)
  }

  /** A selection of a non-empty trace starts with its first sample and ends
      with its last. */
  lemma SelectionEnds(p: seq<Fix>, ix: seq<nat>, r: seq<Fix>)
    requires Selection(p, ix) && Picks(p, ix, r) && |p| > 0
    ensures |r| >= 1 && r[0] == p[0] && r[|r| - 1] == p[|p| - 1]
  {
  }

  /** The output of a trace of two or more samples keeps at least two, the
      first and the last. */
  lemma DouglasPeuckerEnds(p: seq<Fix>, eps: real)
    requires eps >= 0.0 && |p| >= 2
    ensures var r := DouglasPeucker(p, eps);
      |r| >= 2 && r[0] == p[0] && r[|r| - 1] == p[|p| - 1]
  {
    DouglasPeuckerSize(p, eps);
    var ix := DouglasPeuckerSelects(p, eps);
    SelectionEnds(p, ix, DouglasPeucker(p, eps));
  }

  /** The output is an order-preserving selection of the input that starts with
      its first sample and ends with its last, and every dropped sample lies
      within the tolerance of the line through the two kept samples around it. */
  lemma {:induction false} DouglasPeuckerSelects(p: seq<Fix>, eps: real) returns (ix: seq<nat>)
    requires eps >= 0.0
    ensures Selection(p, ix)
    ensures Picks(p, ix, DouglasPeucker(p, eps))
    ensures Covered(p, ix, eps)
    decreases |p|
  {
    if |p| < 3 {
      ix := seq(|p|, k requires 0 <= k < |p| => k);
    } else {
      var m := ArgMax(p, |p|);
      if m.0 > eps * eps {
        SplitInside(p, eps);
        var i := m.1;
        var left := DouglasPeuckerSelects(p[..i], eps);
        var right := DouglasPeuckerSelects(p[i..], eps);
        ix := Join(p, i, left, right, eps);
      } else {
        ix := [0, |p| - 1];
        FlatCovered(p, eps);
      }
    }
  }

  /** Without a split, the chord through the two ends covers every sample. */
  lemma FlatCovered(p: seq<Fix>, eps: real)
    requires eps >= 0.0 && |p| >= 3
    requires ArgMax(p, |p|).0 <= eps * eps
    ensures Selection(p, [0, |p| - 1])
    ensures Covered(p, [0, |p| - 1], eps)
  {
    var ix: seq<nat> := [0, |p| - 1];
    forall k, j | 0 <= k < |ix| - 1 && ix[k] < j < ix[k + 1]
      ensures LineDist2(p[j], p[ix[k]], p[ix[k + 1]]) <= eps * eps
    {
      assert ChordDist2(p, j) <= ArgMax(p, |p|).0;
    }
  }

  /** Selections of the two halves, the right one shifted by the split index,
      form a selection of the whole trace. */
  lemma Join(p: seq<Fix>, i: nat, left: seq<nat>, right: seq<nat>, eps: real) returns (ix: seq<nat>)
    requires eps >= 0.0 && 1 <= i <= |p| - 2
    requires Selection(p[..i], left) && Covered(p[..i], left, eps)
    requires Selection(p[i..], right) && Covered(p[i..], right, eps)
    ensures ix == left + Shift(right, i)
    ensures Selection(p, ix)
    ensures forall r1, r2 :: Picks(p[..i], left, r1) && Picks(p[i..], right, r2) ==> Picks(p, ix, r1 + r2)
    ensures Covered(p, ix, eps)
  {
    var sr := Shift(right, i);
    ix := left + sr;
    JoinSelection(p, i, left, right);
    JoinPicks(p, i, left, right);
    JoinCovered(p, i, left, right, eps);
  }

  function Shift(ix: seq<nat>, d: nat): (r: seq<nat>)
    ensures |r| == |ix| && forall k :: 0 <= k < |ix| ==> r[k] == ix[k] + d
  {
    seq(|ix|, k requires 0 <= k < |ix| => ix[k] + d)
  }

  lemma JoinSelection(p: seq<Fix>, i: nat, left: seq<nat>, right: seq<nat>)
    requires 1 <= i < |p|
    requires Selection(p[..i], left) && Selection(p[i..], right)
    ensures Selection(p, left + Shift(right, i))
  {
    var ix := left + Shift(right, i);
    forall a, b | 0 <= a < b < |ix| ensures ix[a] < ix[b] {
      if b < |left| {
      } else if a >= |left| {
        assert right[a - |left|] < right[b - |left|];
      } else {
        assert ix[a] == left[a] < i;
      }
    }
  }

  lemma JoinPicks(p: seq<Fix>, i: nat, left: seq<nat>, right: seq<nat>)
    requires 1 <= i < |p|
    requires Selection(p[..i], left) && Selection(p[i..], right)
    ensures forall r1, r2 :: Picks(p[..i], left, r1) && Picks(p[i..], right, r2) ==> Picks(p, left + Shift(right, i), r1 + r2)
  {
    var ix := left + Shift(right, i);
    forall r1, r2 | Picks(p[..i], left, r1) && Picks(p[i..], right, r2) ensures Picks(p, ix, r1 + r2) {
      var r := r1 + r2;
      forall k | 0 <= k < |ix| ensures ix[k] < |p| && r[k] == p[ix[k]] {
        if k < |left| {
          assert r[k] == r1[k] == p[..i][left[k]];
        } else {
          assert r[k] == r2[k - |left|] == p[i..][right[k - |left|]];
        }
      }
    }
  }

  lemma JoinCovered(p: seq<Fix>, i: nat, left: seq<nat>, right: seq<nat>, eps: real)
    requires eps >= 0.0 && 1 <= i <= |p| - 2
    requires Selection(p[..i], left) && Covered(p[..i], left, eps)
    requires Selection(p[i..], right) && Covered(p[i..], right, eps)
    ensures Selection(p, left + Shift(right, i))
    ensures Covered(p, left + Shift(right, i), eps)
  {
    JoinSelection(p, i, left, right);
    var ix := left + Shift(right, i);
    var nl := |left|;
    // The left half ends at i - 1 and the right half starts at i.
    assert ix[nl - 1] == i - 1 && ix[nl] == i;
    forall k, j | 0 <= k < |ix| - 1 && ix[k] < j < ix[k + 1]
      ensures LineDist2(p[j], p[ix[k]], p[ix[k + 1]]) <= eps * eps
    {
      if k + 1 < nl {
        CoveredLeft(p, i, left, right, eps, k, j);
      } else if k >= nl {
        CoveredRight(p, i, left, right, eps, k, j);
      }
    }
  }

  lemma CoveredLeft(p: seq<Fix>, i: nat, left: seq<nat>, right: seq<nat>, eps: real, k: nat, j: nat)
    requires eps >= 0.0 && 1 <= i <= |p| - 2
    requires Selection(p[..i], left) && Covered(p[..i], left, eps)
    requires k + 1 < |left| && left[k] < j < left[k + 1]
    ensures LineDist2(p[j], p[left[k]], p[left[k + 1]]) <= eps * eps
  {
    var q := p[..i];
    assert LineDist2(q[j], q[left[k]], q[left[k + 1]]) <= eps * eps;
  }

  lemma CoveredRight(p: seq<Fix>, i: nat, left: seq<nat>, right: seq<nat>, eps: real, k: nat, j: nat)
    requires eps >= 0.0 && 1 <= i <= |p| - 2
    requires Selection(p[i..], right) && Covered(p[i..], right, eps)
    requires |left| <= k && k + 1 < |left| + |right|
    requires (left + Shift(right, i))[k] < j < (left + Shift(right, i))[k + 1]
    ensures LineDist2(p[j], p[(left + Shift(right, i))[k]], p[(left + Shift(right, i))[k + 1]]) <= eps * eps
  {
    var q := p[i..];
    var k' := k - |left|;
    assert (left + Shift(right, i))[k] == right[k'] + i;
    assert (left + Shift(right, i))[k + 1] == right[k' + 1] + i;
    assert LineDist2(q[j - i], q[right[k']], q[right[k' + 1]]) <= eps * eps;
  }

  // ---------------------------------------------------------------------------
  // The depth-bounded variant of the command-line tool (`FlightSimplify::simplify`)

  function Pow2(n: nat): (r: nat)
    ensures r >= 1
  {
    if n == 0 then 1 else 2 * Pow2(n - 1)
  }

  /** The detour through sample `k`: its geodesic distance to the first sample
      plus its distance to the last, or `None` when either distance fails. */
  function Detour(geo: Geodesic, p: seq<Fix>, k: nat): Option<real>
    requires k < |p|
  {
    match (geo(p[k].Pos(), p[0].Pos()), geo(p[k].Pos(), p[|p| - 1].Pos()))
    case (Some(d1), Some(d2)) => Some(d1 + d2)
    case _ => None
  }

  /** The arg-max loop over samples `1 .. j - 1` of the greatest detour; every
      failing distance is unwrapped and aborts. */
  function DetourArgMax(geo: Geodesic, p: seq<Fix>, j: nat): (r: Outcome<(real, nat)>)
    requires 1 <= j <= |p|
    ensures r.Done? <==> forall k :: 1 <= k < j ==> Detour(geo, p, k).Some?
    ensures r.Panic? ==> r.reason == UNWRAP_ERR
    ensures r.Done? ==> r.value.1 < j && forall k :: 1 <= k < j ==> Detour(geo, p, k).value <= r.value.0
    ensures r.Done? && r.value.1 != 0 ==>
      && Detour(geo, p, r.value.1).value == r.value.0
      && forall k :: 1 <= k < r.value.1 ==> Detour(geo, p, k).value < r.value.0
    ensures r.Done? && r.value.1 == 0 ==> r.value.0 == 0.0
    decreases j
  {
    if j == 1 then Done((0.0, 0))
    else
      match DetourArgMax(geo, p, j - 1)
      case Panic(m) => Panic(m)
      case Done(m) =>
        match Detour(geo, p, j - 1)
        case None => Panic(UNWRAP_ERR)
        case Some(d) => if d > m.0 then Done((d, j - 1)) else Done(m)
  }

  /** `FlightSimplify::simplify(p, n)`: split at the sample with the greatest
      detour while depth remains and that sample is not the second one. */
  function SimplifyDepth(geo: Geodesic, p: seq<Fix>, n: nat): (r: Outcome<seq<Fix>>)
    ensures |p| < 3 ==> r == Done(p)
    ensures r.Panic? ==> r.reason == UNWRAP_ERR
    decreases n
  {
    if |p| < 3 then Done(p)
    else
      match DetourArgMax(geo, p, |p|)
      case Panic(m) => Panic(m)
      case Done(m) =>
        if n > 0 && m.1 > 1 then
          match SimplifyDepth(geo, p[..m.1], n - 1)
          case Panic(e) => Panic(e)
          case Done(r1) =>
            match SimplifyDepth(geo, p[m.1..], n - 1)
            case Panic(e) => Panic(e)
            case Done(r2) => Done(r1 + r2)
        else
          Done([p[0], p[|p| - 1]])
  }

  /** A successful depth-`n` simplification is an order-preserving selection of
      the input, from its first sample to its last, of at most `2^(n+1)`
      samples. */
  lemma {:induction false} SimplifyDepthSelects(geo: Geodesic, p: seq<Fix>, n: nat) returns (ix: seq<nat>)
    requires SimplifyDepth(geo, p, n).Done?
    ensures Selection(p, ix)
    ensures Picks(p, ix, SimplifyDepth(geo, p, n).value)
    ensures |SimplifyDepth(geo, p, n).value| <= Pow2(n + 1)
    decreases n
  {
    if |p| < 3 {
      ix := seq(|p|, k requires 0 <= k < |p| => k);
      assert Pow2(n + 1) >= 2;
    } else {
      var m := DetourArgMax(geo, p, |p|).value;
      if n > 0 && m.1 > 1 {
        var i := m.1;
        var left := SimplifyDepthSelects(geo, p[..i], n - 1);
        var right := SimplifyDepthSelects(geo, p[i..], n - 1);
        JoinSelection(p, i, left, right);
        JoinPicks(p, i, left, right);
        ix := left + Shift(right, i);
      } else {
        ix := [0, |p| - 1];
        assert Pow2(n + 1) >= 2;
      }
    }
  }

  /** With a distance function that never fails, the simplification never
      aborts. */
  lemma {:induction false} SimplifyDepthTotal(geo: Geodesic, p: seq<Fix>, n: nat)
    requires forall a, b :: geo(a, b).Some?
    ensures SimplifyDepth(geo, p, n).Done?
    decreases n
  {
    if |p| >= 3 {
      var m := DetourArgMax(geo, p, |p|).value;
      if n > 0 && m.1 > 1 {
        SimplifyDepthTotal(geo, p[..m.1], n - 1);
        SimplifyDepthTotal(geo, p[m.1..], n - 1);
      }
    }
  }
}
