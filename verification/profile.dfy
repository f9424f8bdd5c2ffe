/** The flight profile of the desktop back end and its text form
    (`FlightProfile::to_string`): six comma-terminated rows, one per quantity —
    timestamps, altitudes, speeds, vertical speeds, latitudes, longitudes — each
    row ending in a newline. */
module Profile {
  import opened Common
  import opened Text
  import opened Calendar
  import opened Geo

  /** `FlightProfilePoint`: speed in m/s, vertical speed in m/s. */
  datatype ProfilePoint = ProfilePoint(time: DateTime, alt: nat, speed: nat, vario: real, lat: real, lng: real)

  /** Rust's `Display` for `f32`. Its shortest-round-trip decimal algorithm is
      not modelled; it is a parameter whose renderings hold no comma and no
      newline, as no decimal rendering does. */
  type FloatDisplay = real -> string

  predicate PlainCell(c: string) {
    ',' !in c && '\n' !in c
  }

  ghost predicate PlainDisplay(show: FloatDisplay) {
    forall x :: PlainCell(show(x))
  }

  predicate Timed(points: seq<ProfilePoint>) {
    forall i :: 0 <= i < |points| ==> 1 <= points[i].time.date.month <= 12
  }

  /** The distances `flight_profile` measures, from each fix of the simplified
      trace back to the fix before it, each unwrapped: the first step whose
      distance does not resolve aborts the process. The speeds and vertical
      speeds it derives from them are floating-point quotients and are not
      modelled. */
  function ProfileSteps(geo: Geodesic, s: seq<Fix>): (r: Outcome<seq<real>>)
    ensures r.Done? <==> ResolvesBack(geo, s)
    ensures r.Panic? ==> r.reason == UNWRAP_ERR
    ensures r.Done? ==> |r.value| == (if |s| == 0 then 0 else |s| - 1)
    ensures r.Done? ==> forall k :: 1 <= k < |s| ==> geo(s[k].Pos(), s[k - 1].Pos()) == Some(r.value[k - 1])
    decreases |s|
  {
    if |s| < 2 then Done([])
    else
      match ProfileSteps(geo, s[..|s| - 1])
      case Panic(m) => Panic(m)
      case Done(ds) =>
        match geo(s[|s| - 1].Pos(), s[|s| - 2].Pos())
        case None => Panic(UNWRAP_ERR)
        case Some(d) => Done(ds + [d])
  }

  /** The six columns of the profile, each cell rendered on its own. */
  function Columns(points: seq<ProfilePoint>, show: FloatDisplay): (cols: seq<seq<string>>)
    requires Timed(points)
    ensures |cols| == 6 && forall c :: 0 <= c < 6 ==> |cols[c]| == |points|
  {
    [ seq(|points|, i requires 0 <= i < |points| && Timed(points) => IntStr(Timestamp(points[i].time))),
      seq(|points|, i requires 0 <= i < |points| => NatStr(points[i].alt)),
      seq(|points|, i requires 0 <= i < |points| => NatStr(points[i].speed)),
      seq(|points|, i requires 0 <= i < |points| => show(points[i].vario)),
      seq(|points|, i requires 0 <= i < |points| => show(points[i].lat)),
      seq(|points|, i requires 0 <= i < |points| => show(points[i].lng)) ]
  }

  /** `FlightProfile::to_string`. */
  function ToCsv(points: seq<ProfilePoint>, show: FloatDisplay): (csv: string)
    requires Timed(points)
  {
    var cols := Columns(points, show);
    Terminated(seq(6, c requires 0 <= c < 6 => Terminated(cols[c], ',')), '\n')
  }

  /** Reading the text back: rows at each newline, cells at each comma. */
  function ParseCsv(csv: string): seq<seq<string>> {
    var rows := SplitOn(csv, '\n');
    seq(|rows|, r requires 0 <= r < |rows| => SplitOn(rows[r], ','))
  }

  lemma NatStrPlain(n: nat)
    ensures PlainCell(NatStr(n))
  {
    ParseNatStr(n);
    assert forall i :: 0 <= i < |NatStr(n)| ==> IsDigit(NatStr(n)[i]);
  }

  lemma IntStrPlain(i: int)
    ensures PlainCell(IntStr(i))
  {
    if i < 0 {
      NatStrPlain(-i);
    } else {
      NatStrPlain(i);
    }
  }

  lemma ColumnsPlain(points: seq<ProfilePoint>, show: FloatDisplay)
    requires Timed(points) && PlainDisplay(show)
    ensures forall c, i :: 0 <= c < 6 && 0 <= i < |points| ==> PlainCell(Columns(points, show)[c][i])
  {
    var cols := Columns(points, show);
    forall c, i | 0 <= c < 6 && 0 <= i < |points| ensures PlainCell(cols[c][i]) {
      IntStrPlain(Timestamp(points[i].time));
      NatStrPlain(points[i].alt);
      NatStrPlain(points[i].speed);
    }
  }

  /** The text form is lossless: splitting it into rows and cells gives back
      the six columns, cell for cell. */
  lemma {:induction false} CsvRoundTrip(points: seq<ProfilePoint>, show: FloatDisplay)
    requires Timed(points) && PlainDisplay(show)
    ensures ParseCsv(ToCsv(points, show)) == Columns(points, show)
  {
    var cols := Columns(points, show);
    var rows := seq(6, c requires 0 <= c < 6 => Terminated(cols[c], ','));
    ColumnsPlain(points, show);
    forall c | 0 <= c < 6 ensures '\n' !in rows[c] && SplitOn(rows[c], ',') == cols[c] {
      TerminatedAvoids(cols[c], ',', '\n');
      SplitTerminated(cols[c], ',');
    }
    SplitTerminated(rows, '\n');
  }

  /** Altitudes and speeds read back from the text are the profile's own. */
  lemma CsvNumbers(points: seq<ProfilePoint>, show: FloatDisplay, i: nat)
    requires Timed(points) && PlainDisplay(show) && i < |points|
    ensures var p := ParseCsv(ToCsv(points, show));
      && |p| == 6 && |p[1]| == |p[2]| == |points|
      && ParseNat(p[1][i]) == points[i].alt
      && ParseNat(p[2][i]) == points[i].speed
  {
    CsvRoundTrip(points, show);
    ParseNatStr(points[i].alt);
    ParseNatStr(points[i].speed);
  }
}
