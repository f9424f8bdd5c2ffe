/** Flight metrics: the length of a path (`total_distance`, three identical
    copies), the duration in whole minutes (`flight_duration` and the duration
    computed by both `FlightTrack::new`), and the distance derived from an
    external scorer's result. */
module Metrics {
  import opened Common
  import opened Calendar
  import opened Geo

  // ---------------------------------------------------------------------------
  // Distance

  /** The length of a path: the sum of the distances between consecutive fixes,
      a hop whose distance does not resolve counting 0. */
  function PathLength(geo: Geodesic, t: seq<Fix>): real
    decreases |t|
  {
    if |t| < 2 then 0.0 else DistanceOrZero(geo, t[0].Pos(), t[1].Pos()) + PathLength(geo, t[1..])
  }

  /** Extending a path by one fix adds the last hop. */
  lemma {:induction false} PathLengthSnoc(geo: Geodesic, t: seq<Fix>, f: Fix)
    requires |t| >= 1
    ensures PathLength(geo, t + [f]) == PathLength(geo, t) + DistanceOrZero(geo, t[|t| - 1].Pos(), f.Pos())
    decreases |t|
  {
    if |t| >= 2 {
      assert (t + [f])[1..] == t[1..] + [f];
      PathLengthSnoc(geo, t[1..], f);
    }
  }

  /** The length of two joined paths is the two lengths plus the hop joining
      them. */
  lemma {:induction false} PathLengthAppend(geo: Geodesic, a: seq<Fix>, b: seq<Fix>)
    requires |a| >= 1 && |b| >= 1
    ensures PathLength(geo, a + b)
            == PathLength(geo, a) + DistanceOrZero(geo, a[|a| - 1].Pos(), b[0].Pos()) + PathLength(geo, b)
    decreases |a|
  {
    if |a| == 1 {
      assert (a + b)[1..] == b;
    } else {
      assert (a + b)[1..] == a[1..] + b;
      PathLengthAppend(geo, a[1..], b);
    }
  }

  /** With a distance that is never negative, neither is a path length. */
  lemma {:induction false} PathLengthNonNegative(geo: Geodesic, t: seq<Fix>)
    requires NonNegative(geo)
    ensures PathLength(geo, t) >= 0.0
    decreases |t|
  {
    if |t| >= 2 {
      PathLengthNonNegative(geo, t[1..]);
    }
  }

  /** `total_distance`: the path length in metres, accumulated hop by hop and
      converted with `as u32`. */
  method TotalDistance(geo: Geodesic, t: seq<Fix>) returns (d: nat)
    ensures d == CastToU32(PathLength(geo, t))
    ensures d <= U32_MAX
  {
    if |t| < 2 {
      return 0;
    }
    var dist := 0.0;
    var i := 0;
    while i < |t| - 1
      invariant 0 <= i <= |t| - 1
      invariant dist == PathLength(geo, t[..i + 1])
    {
      PathLengthSnoc(geo, t[..i + 1], t[i + 1]);
      assert t[..i + 1] + [t[i + 1]] == t[..i + 2];
      dist := dist + DistanceOrZero(geo, t[i].Pos(), t[i + 1].Pos());
      i := i + 1;
    }
    assert t[..|t|] == t;
    return CastToU32(dist);
  }

  // ---------------------------------------------------------------------------
  // Duration

  /** Every fix carries a date with a month in range, as a `chrono` timestamp
      always does. */
  predicate Dated(t: seq<Fix>) {
    forall k :: 0 <= k < |t| ==> 1 <= t[k].time.date.month <= 12
  }

  /** `(b - a).num_minutes() as u32`: the whole minutes from `a` to `b`,
      truncated toward zero, then wrapped to 32 bits. Forward in time and within
      range they are the whole minutes between the two instants; backward by at
      least a minute they wrap around to the negative count plus 2^32. */
  function ElapsedMinutes(a: DateTime, b: DateTime): (m: nat)
    requires 1 <= a.date.month <= 12 && 1 <= b.date.month <= 12
    ensures m < U32_MODULUS
    ensures 0 <= Timestamp(b) - Timestamp(a) < 60 * U32_MODULUS ==>
      60 * m <= Timestamp(b) - Timestamp(a) < 60 * m + 60
    ensures -60 * U32_MODULUS < Timestamp(b) - Timestamp(a) <= -60 ==>
      60 * (m - U32_MODULUS) - 60 < Timestamp(b) - Timestamp(a) <= 60 * (m - U32_MODULUS)
  {
    WrapToU32(MinutesBetween(a, b))
  }

  /** `flight_duration` of the trace manager: the minutes from the first to the
      last fix of the simplified trace, 0 for fewer than two fixes. */
  function FlightDuration(t: seq<Fix>): (m: nat)
    requires Dated(t)
    ensures m < U32_MODULUS
    ensures |t| < 2 ==> m == 0
  {
    if |t| < 2 then 0 else ElapsedMinutes(t[0].time, t[|t| - 1].time)
  }

  // ---------------------------------------------------------------------------
  // Scored distance

  /** The JSON text of the scorer's route code for a flat triangle and for an
      FAI triangle (quotes included, as `Value::to_string` renders a string). */
  const TRIANGLE_CODE: string := "\"tri\""
  const FAI_CODE: string := "\"fai\""

  /** The weight the scorer gives a route type. */
  function Multiplier(code: string): (m: real)
    ensures 1.0 <= m <= 1.4
    ensures m != 1.0 <==> code == TRIANGLE_CODE || code == FAI_CODE
  {
    if code == TRIANGLE_CODE then 1.2
    else if code == FAI_CODE then 1.4
    else 1.0
  }

  /** The distance of `FlightTrack::new` in the command-line tool: the score (in
      kilometres, weighted by route type) divided by the route's weight, in
      metres, converted with `as u32`. A score that is not a number aborts. */
  function ScoreDistance(code: string, score: Option<real>): (r: Outcome<nat>)
    ensures r.Done? <==> score.Some?
    ensures r.Panic? ==> r.reason == UNWRAP_NONE
    ensures r.Done? ==> r.value <= U32_MAX
    ensures r.Done? && score.value <= 0.0 ==> r.value == 0
  {
    match score
    case None => Panic(UNWRAP_NONE)
    case Some(s) => Done(CastToU32(s / Multiplier(code) * 1000.0))
  }

  /** Within range, the metres reported are the unweighted kilometres times
      1000, rounded down: multiplied back by the weight they come within one
      weight of the score in metres, and they never exceed it. */
  lemma ScoreDistanceBounds(code: string, s: real)
    requires 0.0 <= s
    requires ScoreDistance(code, Some(s)).value < U32_MAX
    ensures var d := ScoreDistance(code, Some(s)).value as real;
      d * Multiplier(code) <= 1000.0 * s < (d + 1.0) * Multiplier(code)
    ensures ScoreDistance(code, Some(s)).value as real <= 1000.0 * s
  {
    var m := Multiplier(code);
    var x := s / m * 1000.0;
    var d := ScoreDistance(code, Some(s)).value as real;
    assert x * m == 1000.0 * s;
    assert d <= x < d + 1.0;
    assert d * m <= x * m;
    assert x * m < (d + 1.0) * m;
  }
}
