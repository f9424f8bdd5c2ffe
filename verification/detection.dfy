/** Take-off detection (`flight_detection`, three identical copies): a forward
    scan that, for each start index, sums 15 consecutive altitude drops and 15
    consecutive step distances and stops at the first window whose mean
    vertical speed exceeds 0.6 m/s in magnitude or whose mean horizontal speed
    exceeds 3 m/s. Landing is the same scan over the reversed trace. The window
    reads samples up to `i + 15` whatever the trace length, so a scan that
    finds no hit runs off the end of the trace and aborts. */
module Detection {
  import opened Common
  import opened Geo

  /** Number of steps in a window (`NB_POINT`). */
  const WINDOW: nat := 15
  /** Mean vertical speed threshold, m/s. */
  const VSPEED_THR: real := 0.6
  /** Mean horizontal speed threshold, m/s. */
  const HSPEED_THR: real := 3.0
  /** Traces shorter than this are not scanned. */
  const MIN_SAMPLES: nat := 5

  const INDEX_OOB: string := "index out of bounds"

  /** Sum of the altitude drops and sum of the step distances of a window. */
  datatype Sums = Sums(vertical: real, horizontal: real)

  /** The sums over steps `i .. j` (step `a` joins samples `a` and `a + 1`), in
      the order the inner loop accumulates them: each step first reads both
      samples (an index past the end aborts), then unwraps their geodesic
      distance. */
  function StepSums(geo: Geodesic, t: seq<Fix>, i: nat, j: nat): Outcome<Sums>
    requires i <= j
    decreases j - i
  {
    if j == i then Done(Sums(0.0, 0.0))
    else
      match StepSums(geo, t, i, j - 1)
      case Panic(r) => Panic(r)
      case Done(s) =>
        var a := j - 1;
        if a + 1 >= |t| then Panic(INDEX_OOB)
        else
          match geo(t[a].Pos(), t[a + 1].Pos())
          case None => Panic(UNWRAP_ERR)
          case Some(d) => Done(Sums(s.vertical + (t[a].alt as real - t[a + 1].alt as real), s.horizontal + d))
  }

  /** Steps `i .. j` exist and every geodesic distance along them resolves. */
  predicate StepsResolve(geo: Geodesic, t: seq<Fix>, i: nat, j: nat) {
    j == i || (j < |t| && forall a :: i <= a < j ==> geo(t[a].Pos(), t[a + 1].Pos()).Some?)
  }

  /** A window can be evaluated exactly when its steps exist and resolve; the
      vertical sum then telescopes to the altitude lost from its first to its
      last sample, and the horizontal sum is non-negative for a non-negative
      distance. */
  lemma {:induction false} StepSumsSpec(geo: Geodesic, t: seq<Fix>, i: nat, j: nat)
    requires i <= j
    ensures StepSums(geo, t, i, j).Done? <==> StepsResolve(geo, t, i, j)
    ensures StepSums(geo, t, i, j).Done? && i < j ==>
              StepSums(geo, t, i, j).value.vertical == t[i].alt as real - t[j].alt as real
    ensures StepSums(geo, t, i, j).Done? && NonNegative(geo) ==> StepSums(geo, t, i, j).value.horizontal >= 0.0
    decreases j - i
  {
    if i < j {
      StepSumsSpec(geo, t, i, j - 1);
      if StepsResolve(geo, t, i, j) {
        assert StepsResolve(geo, t, i, j - 1);
      }
    }
  }

  /** Steps peeled from the front: the first step, then the remaining ones. */
  lemma {:induction false} StepsFront(geo: Geodesic, t: seq<Fix>, i: nat, j: nat)
    requires i < j && StepSums(geo, t, i, j).Done?
    ensures i + 1 < |t| && geo(t[i].Pos(), t[i + 1].Pos()).Some?
    ensures StepSums(geo, t, i + 1, j).Done?
    ensures StepSums(geo, t, i, j).value.horizontal
            == geo(t[i].Pos(), t[i + 1].Pos()).value + StepSums(geo, t, i + 1, j).value.horizontal
    decreases j - i
  {
    StepSumsSpec(geo, t, i, j);
    StepSumsSpec(geo, t, i + 1, j);
    if i + 1 < j {
      StepsFront(geo, t, i, j - 1);
    }
  }

  /** `vspeed < -VSPEED_THR || vspeed > VSPEED_THR || hspeed > HSPEED_THR` on the
      window means. */
  predicate Crosses(s: Sums) {
    var v := s.vertical / WINDOW as real;
    var h := s.horizontal / WINDOW as real;
    v < -VSPEED_THR || v > VSPEED_THR || h > HSPEED_THR
  }

  /** The window of `WINDOW` steps starting at sample `i`. */
  function Window(geo: Geodesic, t: seq<Fix>, i: nat): Outcome<Sums> {
    StepSums(geo, t, i, i + WINDOW)
  }

  /** Window `i` can be evaluated and crosses a threshold. */
  predicate Hit(geo: Geodesic, t: seq<Fix>, i: nat) {
    Window(geo, t, i).Done? && Crosses(Window(geo, t, i).value)
  }

  /** Window `i` can be evaluated and crosses no threshold. */
  predicate Calm(geo: Geodesic, t: seq<Fix>, i: nat) {
    Window(geo, t, i).Done? && !Crosses(Window(geo, t, i).value)
  }

  /** The outer loop from index `i` on, `i` running to `len - 3`. */
  function ScanFrom(geo: Geodesic, t: seq<Fix>, i: nat): Outcome<nat>
    requires |t| >= 2
    decreases |t| - i
  {
    if i >= |t| - 2 then Done(0)
    else
      match Window(geo, t, i)
      case Panic(r) => Panic(r)
      case Done(s) => if Crosses(s) then Done(i) else ScanFrom(geo, t, i + 1)
  }

  /** `flight_detection`. */
  function Detect(geo: Geodesic, t: seq<Fix>): Outcome<nat> {
    if |t| < MIN_SAMPLES then Done(0) else ScanFrom(geo, t, 0)
  }

  /** `i` is the first hit: every earlier window was calm. */
  predicate FirstHit(geo: Geodesic, t: seq<Fix>, k: nat) {
    Hit(geo, t, k) && forall j :: 0 <= j < k ==> Calm(geo, t, j)
  }

  lemma {:induction false} ScanFromSpec(geo: Geodesic, t: seq<Fix>, i: nat, k: nat)
    requires |t| >= MIN_SAMPLES && i < |t| - 2
    ensures ScanFrom(geo, t, i) == Done(k)
            <==> i <= k && Hit(geo, t, k) && forall j :: i <= j < k ==> Calm(geo, t, j)
    decreases |t| - i
  {
    StepSumsSpec(geo, t, i, i + WINDOW);
    if Calm(geo, t, i) {
      ScanFromSpec(geo, t, i + 1, k);
      if i < k && Hit(geo, t, k) && forall j :: i + 1 <= j < k ==> Calm(geo, t, j) {
        assert forall j :: i <= j < k ==> Calm(geo, t, j);
      }
    }
  }

  /** For five samples or more, the detector returns `k` exactly when window `k`
      is the first hit, and aborts exactly when there is no first hit; for fewer
      samples it returns 0. */
  lemma DetectSpec(geo: Geodesic, t: seq<Fix>, k: nat)
    ensures |t| < MIN_SAMPLES ==> Detect(geo, t) == Done(0)
    ensures |t| >= MIN_SAMPLES ==> (Detect(geo, t) == Done(k) <==> FirstHit(geo, t, k))
    ensures |t| >= MIN_SAMPLES && FirstHit(geo, t, k) ==> k + WINDOW < |t|
  {
    if |t| >= MIN_SAMPLES {
      ScanFromSpec(geo, t, 0, k);
      StepSumsSpec(geo, t, k, k + WINDOW);
    }
  }

  /** Every scan of five samples or more either reports its first hit or aborts. */
  lemma DetectPanics(geo: Geodesic, t: seq<Fix>)
    requires |t| >= MIN_SAMPLES
    ensures Detect(geo, t).Panic? <==> forall k: nat :: !FirstHit(geo, t, k)
  {
    if Detect(geo, t).Done? {
      DetectSpec(geo, t, Detect(geo, t).value);
    } else {
      forall k: nat ensures !FirstHit(geo, t, k) {
        DetectSpec(geo, t, k);
      }
    }
  }

  /** Traces of 5 to 15 samples always abort: not even the first window fits. */
  lemma ShortTracePanics(geo: Geodesic, t: seq<Fix>)
    requires MIN_SAMPLES <= |t| <= WINDOW
    ensures Detect(geo, t).Panic?
  {
    forall k: nat ensures !FirstHit(geo, t, k) {
      StepSumsSpec(geo, t, k, k + WINDOW);
    }
    DetectPanics(geo, t);
  }

  // ---------------------------------------------------------------------------
  // The reversed trace

  function Reverse(t: seq<Fix>): (r: seq<Fix>)
    ensures |r| == |t|
    ensures forall i :: 0 <= i < |t| ==> r[i] == t[|t| - 1 - i]
  {
    seq(|t|, i requires 0 <= i < |t| => t[|t| - 1 - i])
  }

  /** Step `a` of the reversed trace is step `|t| - 2 - a` of the trace, walked
      backwards. */
  lemma MirrorStep(geo: Geodesic, t: seq<Fix>, a: nat)
    requires Symmetric(geo)
    requires a + 1 < |t|
    ensures var b := |t| - 2 - a;
      geo(Reverse(t)[a].Pos(), Reverse(t)[a + 1].Pos()) == geo(t[b].Pos(), t[b + 1].Pos())
  {
  }

  /** The `m` steps from `r` on in the reversed trace resolve exactly when the
      `m` steps ending at sample `|t| - 1 - r` of the trace do. */
  lemma MirrorResolve(geo: Geodesic, t: seq<Fix>, r: nat, m: nat)
    requires Symmetric(geo)
    requires r + m < |t|
    ensures var i := |t| - 1 - r - m;
      StepsResolve(geo, Reverse(t), r, r + m) <==> StepsResolve(geo, t, i, i + m)
  {
    var n := |t|;
    var rv := Reverse(t);
    var i := n - 1 - r - m;
    if StepsResolve(geo, rv, r, r + m) {
      forall b | i <= b < i + m ensures geo(t[b].Pos(), t[b + 1].Pos()).Some? {
        MirrorStep(geo, t, n - 2 - b);
      }
    }
    if StepsResolve(geo, t, i, i + m) {
      forall a | r <= a < r + m ensures geo(rv[a].Pos(), rv[a + 1].Pos()).Some? {
        MirrorStep(geo, t, a);
      }
    }
  }

  /** Walking the same steps backwards keeps the distance sum. */
  lemma {:induction false} MirrorHorizontal(geo: Geodesic, t: seq<Fix>, r: nat, m: nat)
    requires Symmetric(geo)
    requires r + m < |t|
    requires StepSums(geo, t, |t| - 1 - r - m, |t| - 1 - r).Done?
    requires StepSums(geo, Reverse(t), r, r + m).Done?
    ensures StepSums(geo, Reverse(t), r, r + m).value.horizontal
            == StepSums(geo, t, |t| - 1 - r - m, |t| - 1 - r).value.horizontal
    decreases m
  {
    if m > 0 {
      var i := |t| - 1 - r - m;
      StepsFront(geo, t, i, i + m);
      MirrorStep(geo, t, r + m - 1);
      MirrorHorizontal(geo, t, r, m - 1);
    }
  }

  /** Walking the same steps backwards changes the sign of the altitude drop and
      keeps the distance sum. */
  lemma MirrorSums(geo: Geodesic, t: seq<Fix>, r: nat, m: nat)
    requires Symmetric(geo)
    requires r + m < |t|
    requires StepSums(geo, t, |t| - 1 - r - m, |t| - 1 - r).Done?
    ensures StepSums(geo, Reverse(t), r, r + m).Done?
    ensures var s := StepSums(geo, t, |t| - 1 - r - m, |t| - 1 - r).value;
      StepSums(geo, Reverse(t), r, r + m).value == Sums(-s.vertical, s.horizontal)
  {
    var i := |t| - 1 - r - m;
    StepSumsSpec(geo, t, i, i + m);
    MirrorResolve(geo, t, r, m);
    StepSumsSpec(geo, Reverse(t), r, r + m);
    MirrorHorizontal(geo, t, r, m);
  }

  /** Crossing a threshold does not depend on the sign of the altitude drop. */
  lemma CrossesMirror(s: Sums)
    ensures Crosses(Sums(-s.vertical, s.horizontal)) <==> Crosses(s)
  {
  }

  /** Window `r` of the reversed trace is a hit (calm) exactly when window
      `|t| - 16 - r` of the trace is. */
  lemma MirrorHit(geo: Geodesic, t: seq<Fix>, r: nat)
    requires Symmetric(geo)
    requires r + WINDOW < |t|
    ensures Hit(geo, Reverse(t), r) <==> Hit(geo, t, |t| - 1 - WINDOW - r)
    ensures Calm(geo, Reverse(t), r) <==> Calm(geo, t, |t| - 1 - WINDOW - r)
  {
    var i := |t| - 1 - WINDOW - r;
    MirrorResolve(geo, t, r, WINDOW);
    StepSumsSpec(geo, t, i, i + WINDOW);
    StepSumsSpec(geo, Reverse(t), r, r + WINDOW);
    if Window(geo, t, i).Done? {
      MirrorSums(geo, t, r, WINDOW);
      CrossesMirror(Window(geo, t, i).value);
    }
  }

  /** With a symmetric distance, the landing scan's hit is the trace's last hit,
      so it cannot precede the take-off hit: when both scans of a trace of five
      samples or more succeed, at least one full window separates the take-off
      index from the landing index `|t| - 1 - k'`. */
  lemma TakeoffBeforeLanding(geo: Geodesic, t: seq<Fix>)
    requires Symmetric(geo)
    requires |t| >= MIN_SAMPLES
    requires Detect(geo, t).Done? && Detect(geo, Reverse(t)).Done?
    ensures Detect(geo, t).value + WINDOW <= |t| - 1 - Detect(geo, Reverse(t)).value
  {
    var k := Detect(geo, t).value;
    var k' := Detect(geo, Reverse(t)).value;
    DetectSpec(geo, t, k);
    DetectSpec(geo, Reverse(t), k');
    MirrorHit(geo, t, k');
    var last := |t| - 1 - WINDOW - k';
    assert Hit(geo, t, last);
    assert !Calm(geo, t, last);
  }

  /** Scanning from `i` reaches a hit at `h` when every window in between can be
      evaluated. */
  lemma {:induction false} ScanReaches(geo: Geodesic, t: seq<Fix>, i: nat, h: nat)
    requires |t| >= MIN_SAMPLES && i <= h
    requires Hit(geo, t, h)
    requires forall j :: i <= j <= h ==> Window(geo, t, j).Done?
    ensures ScanFrom(geo, t, i).Done? && ScanFrom(geo, t, i).value <= h
    decreases h - i
  {
    StepSumsSpec(geo, t, h, h + WINDOW);
    if !Crosses(Window(geo, t, i).value) {
      ScanReaches(geo, t, i + 1, h);
    }
  }

  /** When the distance is symmetric and resolves along the whole trace, a
      take-off hit guarantees that the landing scan succeeds too, and the
      landing index lies at least a window after the take-off index. */
  lemma LandingFound(geo: Geodesic, t: seq<Fix>)
    requires Symmetric(geo) && ResolvesAlong(geo, t)
    requires |t| >= MIN_SAMPLES
    requires Detect(geo, t).Done?
    ensures Detect(geo, Reverse(t)).Done?
    ensures Detect(geo, t).value + WINDOW <= |t| - 1 - Detect(geo, Reverse(t)).value
  {
    var n := |t|;
    var k := Detect(geo, t).value;
    DetectSpec(geo, t, k);
    var h := n - 1 - WINDOW - k;
    MirrorHit(geo, t, h);
    assert n - 1 - WINDOW - h == k;
    ReverseResolves(geo, t);
    forall j | 0 <= j <= h ensures Window(geo, Reverse(t), j).Done? {
      WindowsResolve(geo, Reverse(t), j);
    }
    ScanReaches(geo, Reverse(t), 0, h);
    TakeoffBeforeLanding(geo, t);
  }

  /** A distance that resolves along a trace resolves along it backwards too. */
  lemma ReverseResolves(geo: Geodesic, t: seq<Fix>)
    requires Symmetric(geo) && ResolvesAlong(geo, t)
    ensures ResolvesAlong(geo, Reverse(t))
  {
    forall a | 0 <= a < |t| - 1 ensures geo(Reverse(t)[a].Pos(), Reverse(t)[a + 1].Pos()).Some? {
      MirrorStep(geo, t, a);
    }
  }

  /** Along a trace where the distance resolves, every window that fits can be
      evaluated. */
  lemma WindowsResolve(geo: Geodesic, t: seq<Fix>, j: nat)
    requires ResolvesAlong(geo, t) && j + WINDOW < |t|
    ensures Window(geo, t, j).Done?
  {
    StepSumsSpec(geo, t, j, j + WINDOW);
  }
}
