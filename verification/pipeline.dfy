/** The three constructors that turn a flight log into a flight: the trace
    manager's `FlightTrace::new`, the desktop back end's `FlightTrack::new`, and
    the command-line tool's `FlightTrack::new`. Each detects the take-off on the
    trace and the landing on the reversed trace; the first two simplify the
    part of the trace between them. */
module Pipeline {
  import opened Common
  import opened Text
  import opened Calendar
  import opened Geo
  import opened Igc
  import opened Detection
  import opened Simplify
  import opened Metrics
  import opened Profile

  /** The tolerance of the trace manager's simplification, in degrees. */
  const TRACE_EPSILON: real := 0.005
  /** The tolerance of the desktop back end's simplification, in degrees. */
  const DESKTOP_EPSILON: real := 0.00001

  /** The panic of a slice `t[a..b]` with `a > b`. */
  const SLICE_ORDER: string := "slice index starts after its end"

  /** Take-off and landing indices of a trace. */
  datatype Bounds = Bounds(takeoff: nat, landing: nat)

  /** Both scans: the take-off index, then the landing scan's index on the
      reversed trace (an offset from the end). */
  function Scans(geo: Geodesic, t: seq<Fix>): (r: Outcome<(nat, nat)>)
    ensures r.Done? <==> Detect(geo, t).Done? && Detect(geo, Reverse(t)).Done?
    ensures r.Done? ==> r.value == (Detect(geo, t).value, Detect(geo, Reverse(t)).value)
  {
    match Detect(geo, t)
    case Panic(m) => Panic(m)
    case Done(k) =>
      match Detect(geo, Reverse(t))
      case Panic(m) => Panic(m)
      case Done(k') => Done((k, k'))
  }

  /** A scan that succeeds on a non-empty trace reports an index inside it. */
  lemma ScanInside(geo: Geodesic, t: seq<Fix>)
    requires |t| >= 1 && Detect(geo, t).Done?
    ensures Detect(geo, t).value < |t|
  {
    DetectSpec(geo, t, Detect(geo, t).value);
  }

  /** Both scans of a non-empty trace report indices inside it; on the empty
      trace they report 0. */
  lemma ScanInsideAny(geo: Geodesic, t: seq<Fix>)
    requires Scans(geo, t).Done?
    ensures |t| >= 1 ==> Scans(geo, t).value.0 < |t| && Scans(geo, t).value.1 < |t|
    ensures |t| == 0 ==> Scans(geo, t).value == (0, 0)
  {
    if |t| >= 1 {
      ScanInside(geo, t);
      ScanInside(geo, Reverse(t));
    }
  }

  /** The trace manager's indices: `len - k' - 1`, both subtractions checked. */
  function TraceBounds(geo: Geodesic, t: seq<Fix>): (r: Outcome<Bounds>)
    ensures r.Done? <==> Scans(geo, t).Done? && |t| >= 1
    ensures r.Done? ==> r.value.takeoff < |t| && r.value.landing < |t|
  {
    match Scans(geo, t)
    case Panic(m) => Panic(m)
    case Done(ks) =>
      ScanInsideAny(geo, t);
      match CheckedSub(|t|, ks.1)
      case Panic(m) => Panic(m)
      case Done(x) =>
        match CheckedSub(x, 1)
        case Panic(m) => Panic(m)
        case Done(l) => Done(Bounds(ks.0, l))
  }

  /** The desktop and command-line indices: `(len - k').saturating_sub(1)`. */
  function TrackBounds(geo: Geodesic, t: seq<Fix>): (r: Outcome<Bounds>)
    ensures r.Done? <==> Scans(geo, t).Done?
    ensures r.Done? && |t| >= 1 ==> r.value.takeoff < |t| && r.value.landing < |t|
    ensures r.Done? && |t| == 0 ==> r.value == Bounds(0, 0)
  {
    match Scans(geo, t)
    case Panic(m) => Panic(m)
    case Done(ks) =>
      ScanInsideAny(geo, t);
      match CheckedSub(|t|, ks.1)
      case Panic(m) => Panic(m)
      case Done(x) => Done(Bounds(ks.0, SaturatingSub(x, 1)))
  }

  /** The two ways of computing the landing index agree on every non-empty
      trace; on the empty trace the trace manager's aborts and the other gives
      index 0. */
  lemma BoundsAgree(geo: Geodesic, t: seq<Fix>)
    ensures |t| >= 1 ==> TraceBounds(geo, t) == TrackBounds(geo, t)
    ensures |t| == 0 ==> TraceBounds(geo, t).Panic? && TrackBounds(geo, t) == Done(Bounds(0, 0))
  {
    if |t| >= 1 && Scans(geo, t).Done? {
      ScanInside(geo, Reverse(t));
    }
  }

  /** With a symmetric distance that resolves along a trace of five fixes or
      more, a take-off found means a landing found at least a detection window
      later. */
  lemma BoundsOrdered(geo: Geodesic, t: seq<Fix>)
    requires Symmetric(geo) && ResolvesAlong(geo, t)
    requires |t| >= MIN_SAMPLES && Detect(geo, t).Done?
    ensures TraceBounds(geo, t).Done?
    ensures TraceBounds(geo, t).value.takeoff + WINDOW <= TraceBounds(geo, t).value.landing < |t|
    ensures TraceBounds(geo, t) == TrackBounds(geo, t)
  {
    LandingFound(geo, t);
    BoundsAgree(geo, t);
  }

  /** Fewer than five fixes: the whole trace, from the first fix to the last. */
  lemma ShortBounds(geo: Geodesic, t: seq<Fix>)
    requires 1 <= |t| < MIN_SAMPLES
    ensures TraceBounds(geo, t) == Done(Bounds(0, |t| - 1))
    ensures TrackBounds(geo, t) == Done(Bounds(0, |t| - 1))
  {
  }

  // ---------------------------------------------------------------------------
  // The trace manager

  /** `FlightTrace`. */
  datatype FlightTrace = FlightTrace(check: string, rawIgc: string, date: Date, simplified: seq<Fix>, trace: seq<Fix>)

  /** `FlightTrace::new`: decode (an impossible time of day stamps a fix at
      year 0), detect, and simplify the fixes from take-off up to, but not
      including, the landing fix. */
  function NewTrace(geo: Geodesic, raw: string): (r: Outcome<FlightTrace>)
    ensures r.Done? ==> Read(raw, YEAR_ZERO).Done?
    ensures r.Done? ==> var st := Read(raw, YEAR_ZERO).value;
      && r.value.rawIgc == raw && r.value.trace == st.trace
      && r.value.date == st.date && r.value.check == st.check
  {
    match Read(raw, YEAR_ZERO)
    case Panic(m) => Panic(m)
    case Done(st) =>
      match TraceBounds(geo, st.trace)
      case Panic(m) => Panic(m)
      case Done(b) =>
        if b.takeoff > b.landing then Panic(SLICE_ORDER)
        else
          var flight := st.trace[b.takeoff..b.landing];
          Done(FlightTrace(st.check, raw, st.date, DouglasPeucker(flight, TRACE_EPSILON), st.trace))
  }

  /** The simplified trace is a selection of the flight between take-off and
      landing, from its first fix to its last, every dropped fix within the
      tolerance of the line through the kept fixes around it. */
  lemma NewTraceSimplified(geo: Geodesic, raw: string) returns (b: Bounds, ix: seq<nat>)
    requires NewTrace(geo, raw).Done?
    ensures var ft := NewTrace(geo, raw).value;
      && TraceBounds(geo, ft.trace) == Done(b)
      && b.takeoff <= b.landing < |ft.trace|
      && Selection(ft.trace[b.takeoff..b.landing], ix)
      && Picks(ft.trace[b.takeoff..b.landing], ix, ft.simplified)
      && Covered(ft.trace[b.takeoff..b.landing], ix, TRACE_EPSILON)
  {
    var st := Read(raw, YEAR_ZERO).value;
    b := TraceBounds(geo, st.trace).value;
    ix := DouglasPeuckerSelects(st.trace[b.takeoff..b.landing], TRACE_EPSILON);
  }

  /** A log whose trace has a take-off, along which the distance resolves,
      yields a flight whose simplified trace starts at the take-off fix, ends
      on the fix before the landing fix, and keeps at least two fixes. */
  lemma NewTraceSucceeds(geo: Geodesic, raw: string, st: Reader)
    requires Read(raw, YEAR_ZERO) == Done(st)
    requires Symmetric(geo) && ResolvesAlong(geo, st.trace) && |st.trace| >= MIN_SAMPLES && Detect(geo, st.trace).Done?
    ensures NewTrace(geo, raw).Done? && NewTrace(geo, raw).value.trace == st.trace
    ensures TraceBounds(geo, st.trace).Done?
    ensures NewTrace(geo, raw).value.simplified == DouglasPeucker(st.trace[TraceBounds(geo, st.trace).value.takeoff..TraceBounds(geo, st.trace).value.landing], TRACE_EPSILON)
    ensures SpansFlight(NewTrace(geo, raw).value.simplified, st.trace, TraceBounds(geo, st.trace).value)
  {
    var b, r := FlightEnds(geo, st.trace);
    NewTraceParts(geo, raw, st, b, r);
    Spans(NewTrace(geo, raw).value.simplified, r, st.trace, b);
  }

  /** The flight between the bounds of a trace with a take-off simplifies to
      at least two fixes, from the take-off fix to the fix before the landing. */
  lemma FlightEnds(geo: Geodesic, t: seq<Fix>) returns (b: Bounds, r: seq<Fix>)
    requires Symmetric(geo) && ResolvesAlong(geo, t) && |t| >= MIN_SAMPLES && Detect(geo, t).Done?
    ensures TraceBounds(geo, t) == Done(b)
    ensures b.takeoff + WINDOW <= b.landing < |t|
    ensures r == DouglasPeucker(t[b.takeoff..b.landing], TRACE_EPSILON)
    ensures |r| >= 2 && r[0] == t[b.takeoff] && r[|r| - 1] == t[b.landing - 1]
  {
    BoundsOrdered(geo, t);
    b := TraceBounds(geo, t).value;
    r := DouglasPeucker(t[b.takeoff..b.landing], TRACE_EPSILON);
    SliceEnds(t, b.takeoff, b.landing, TRACE_EPSILON);
  }

  lemma SliceEnds(t: seq<Fix>, a: nat, c: nat, eps: real)
    requires eps >= 0.0 && a + 2 <= c <= |t|
    ensures var r := DouglasPeucker(t[a..c], eps);
      |r| >= 2 && r[0] == t[a] && r[|r| - 1] == t[c - 1]
  {
    DouglasPeuckerEnds(t[a..c], eps);
  }

  /** A successful trace keeps the decoded fixes and simplifies the flight
      between the bounds. */
  lemma NewTraceParts(geo: Geodesic, raw: string, st: Reader, b: Bounds, r: seq<Fix>)
    requires Read(raw, YEAR_ZERO) == Done(st)
    requires TraceBounds(geo, st.trace) == Done(b) && b.takeoff <= b.landing < |st.trace|
    requires r == DouglasPeucker(st.trace[b.takeoff..b.landing], TRACE_EPSILON)
    requires |r| >= 2 && r[0] == st.trace[b.takeoff] && r[|r| - 1] == st.trace[b.landing - 1]
    ensures NewTrace(geo, raw).Done? && NewTrace(geo, raw).value.trace == st.trace
    ensures NewTrace(geo, raw).value.simplified == r
  {
  }

  lemma Spans(s: seq<Fix>, r: seq<Fix>, t: seq<Fix>, b: Bounds)
    requires s == r && b.takeoff < b.landing <= |t|
    requires |r| >= 2 && r[0] == t[b.takeoff] && r[|r| - 1] == t[b.landing - 1]
    ensures SpansFlight(s, t, b)
  {
  }

  /** `s` has at least two fixes, from the take-off fix of `t` to the fix
      before its landing fix. */
  predicate SpansFlight(s: seq<Fix>, t: seq<Fix>, b: Bounds) {
    && b.takeoff < b.landing <= |t|
    && |s| >= 2 && s[0] == t[b.takeoff] && s[|s| - 1] == t[b.landing - 1]
  }

  /** A log without fixes makes the trace manager abort. */
  lemma NewTraceEmpty(geo: Geodesic, raw: string)
    requires Read(raw, YEAR_ZERO).Done? && Read(raw, YEAR_ZERO).value.trace == []
    ensures NewTrace(geo, raw).Panic?
  {
    BoundsAgree(geo, []);
  }

  // ---------------------------------------------------------------------------
  // The desktop back end

  /** `FlightTrack` without its profile. */
  datatype Track = Track(duration: nat, distance: nat, date: Date, takeoff: Fix, landing: Fix, hash: string)

  /** Everything `FlightTrack::new` checks before it computes: the log decodes
      (an impossible time of day stamps a fix at the Unix epoch), both scans
      succeed, both indices are inside the trace and in order. */
  function DesktopPlan(geo: Geodesic, raw: string): (r: Outcome<(Reader, Bounds)>)
    ensures r.Done? ==> Read(raw, UNIX_EPOCH) == Done(r.value.0)
    ensures r.Done? ==> TrackBounds(geo, r.value.0.trace) == Done(r.value.1)
    ensures r.Done? ==> r.value.1.takeoff <= r.value.1.landing < |r.value.0.trace|
    ensures r.Done? ==> Dated(r.value.0.trace)
  {
    match Read(raw, UNIX_EPOCH)
    case Panic(m) => Panic(m)
    case Done(st) =>
      match TrackBounds(geo, st.trace)
      case Panic(m) => Panic(m)
      case Done(b) =>
        if b.landing >= |st.trace| || b.takeoff >= |st.trace| then Panic(INDEX_OOB)
        else if b.takeoff > b.landing then Panic(SLICE_ORDER)
        else
          ReadLinesDated(Lines(raw), UNIX_EPOCH);
          Done((st, b))
  }

  /** The desktop back end's simplified flight: the fixes from take-off up to,
      but not including, the landing fix. */
  function DesktopFlight(st: Reader, b: Bounds): seq<Fix>
    requires b.takeoff <= b.landing <= |st.trace|
  {
    DouglasPeucker(st.trace[b.takeoff..b.landing], DESKTOP_EPSILON)
  }

  /** `FlightTrack::new` gets through: its plan succeeds and `flight_profile`
      measures every step of the simplified flight. */
  predicate DesktopBuilds(geo: Geodesic, raw: string) {
    && DesktopPlan(geo, raw).Done?
    && ResolvesBack(geo, DesktopFlight(DesktopPlan(geo, raw).value.0, DesktopPlan(geo, raw).value.1))
  }

  /** `FlightTrack::new` of the desktop back end. The profile's own values are
      left out; the distances it unwraps are not. */
  method NewDesktopTrack(geo: Geodesic, raw: string) returns (r: Outcome<Track>)
    ensures r.Done? <==> DesktopBuilds(geo, raw)
    ensures r.Panic? && DesktopPlan(geo, raw).Panic? ==> r.reason == DesktopPlan(geo, raw).reason
    ensures r.Panic? && DesktopPlan(geo, raw).Done? ==> r.reason == UNWRAP_ERR
    ensures r.Done? ==>
      var st := DesktopPlan(geo, raw).value.0;
      var b := DesktopPlan(geo, raw).value.1;
      && r.value.takeoff == st.trace[b.takeoff]
      && r.value.landing == st.trace[b.landing]
      && r.value.duration == ElapsedMinutes(st.trace[b.takeoff].time, st.trace[b.landing].time)
      && r.value.distance == CastToU32(PathLength(geo, DesktopFlight(st, b)))
      && r.value.date == st.date
      && r.value.hash == st.check
  {
    var plan := DesktopPlan(geo, raw);
    if plan.Panic? {
      return Panic(plan.reason);
    }
    var st := plan.value.0;
    var b := plan.value.1;
    var track := st.trace;
    var duration := ElapsedMinutes(track[b.takeoff].time, track[b.landing].time);
    var simplified := DesktopFlight(st, b);
    var distance := TotalDistance(geo, simplified);
    var steps := ProfileSteps(geo, simplified);
    if steps.Panic? {
      return Panic(steps.reason);
    }
    return Done(Track(duration, distance, st.date, track[b.takeoff], track[b.landing], st.check));
  }

  /** With a symmetric distance that resolves between any two positions, a
      log with a take-off builds a desktop flight whose take-off comes at least
      a detection window before its landing. */
  lemma DesktopSucceeds(geo: Geodesic, raw: string, st: Reader)
    requires Read(raw, UNIX_EPOCH) == Done(st)
    requires Symmetric(geo) && (forall a, b :: geo(a, b).Some?)
    requires |st.trace| >= MIN_SAMPLES && Detect(geo, st.trace).Done?
    ensures DesktopBuilds(geo, raw)
    ensures DesktopPlan(geo, raw).value.1.takeoff + WINDOW <= DesktopPlan(geo, raw).value.1.landing
  {
    BoundsOrdered(geo, st.trace);
    var b := TrackBounds(geo, st.trace).value;
    DesktopPlanOf(geo, raw, st, b);
    TotalResolvesBack(geo, DesktopFlight(st, b));
  }

  lemma DesktopPlanOf(geo: Geodesic, raw: string, st: Reader, b: Bounds)
    requires Read(raw, UNIX_EPOCH) == Done(st)
    requires TrackBounds(geo, st.trace) == Done(b) && b.takeoff <= b.landing < |st.trace|
    ensures DesktopPlan(geo, raw) == Done((st, b))
  {
  }

  lemma TotalResolvesBack(geo: Geodesic, s: seq<Fix>)
    requires forall a, b :: geo(a, b).Some?
    ensures ResolvesBack(geo, s)
  {
  }

  // ---------------------------------------------------------------------------
  // The command-line tool

  /** `FlightTrack` of the command-line tool, without the scorer's GeoJSON. */
  datatype ScoredTrack = ScoredTrack(duration: nat, distance: nat, date: Date, takeoff: Fix, landing: Fix, hash: string)

  /** `FlightTrack::new` of the command-line tool, from an already decoded log
      (fixes, date, security record) and the scorer's route code and score. It
      succeeds exactly when both scans succeed on a non-empty trace and the
      score is a number. */
  function NewScoredTrack(geo: Geodesic, track: seq<Fix>, date: Date, check: string, code: string, score: Option<real>)
    : (r: Outcome<ScoredTrack>)
    requires Dated(track)
    ensures r.Done? <==> Scans(geo, track).Done? && track != [] && score.Some?
    ensures r.Done? ==> var b := TrackBounds(geo, track).value;
      && r.value.takeoff == track[b.takeoff] && r.value.landing == track[b.landing]
      && r.value.duration == ElapsedMinutes(track[b.takeoff].time, track[b.landing].time)
      && r.value.distance == ScoreDistance(code, score).value
  {
    match TrackBounds(geo, track)
    case Panic(m) => Panic(m)
    case Done(b) =>
      if b.landing >= |track| || b.takeoff >= |track| then Panic(INDEX_OOB)
      else
        var duration := ElapsedMinutes(track[b.takeoff].time, track[b.landing].time);
        match ScoreDistance(code, score)
        case Panic(m) => Panic(m)
        case Done(d) => Done(ScoredTrack(duration, d, date, track[b.takeoff], track[b.landing], check))
  }
}
