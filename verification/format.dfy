/** The display formatters of the web front end (`format_duration` and
    `format_distance`, identical in the flight list, the tree view and the main
    page): a duration in minutes as `[H]h` + two-digit minutes + `min`, a
    distance as kilometres with one decimal + `km`, each padded at the end with
    EN QUAD (U+2000) characters to a fixed width. */
module Format {
  import opened Common
  import opened Text
  import opened Metrics

  /** The padding character, U+2000 EN QUAD. */
  const FILL: char := '\U{2000}'

  const DURATION_WIDTH: nat := 8
  const DISTANCE_WIDTH: nat := 7

  /** Removes every trailing fill character. */
  function TrimFill(s: string): (r: string)
    ensures |r| <= |s| && r == s[..|r|]
    ensures forall i :: |r| <= i < |s| ==> s[i] == FILL
    decreases |s|
  {
    if s != [] && s[|s| - 1] == FILL then TrimFill(s[..|s| - 1]) else s
  }

  /** Trimming undoes padding of a text that does not end with the fill
      character. */
  lemma {:induction false} TrimPadded(core: string, n: nat)
    requires core == [] || core[|core| - 1] != FILL
    ensures TrimFill(core + Repeat(FILL, n)) == core
    decreases n
  {
    if n == 0 {
      assert core + Repeat(FILL, 0) == core;
    } else {
      assert (core + Repeat(FILL, n))[..|core| + n - 1] == core + Repeat(FILL, n - 1);
      TrimPadded(core, n - 1);
    }
  }

  // ---------------------------------------------------------------------------
  // Durations

  /** The minutes of the hour, always two digits. */
  function TwoDigits(m: nat): (s: string)
    requires m < 60
    ensures |s| == 2 && AllDigits(s)
    ensures ParseNat(s) == m
  {
    var s := if m < 10 then "0" + NatStr(m) else NatStr(m);
    NatStrSmall(m);
    ParseNatStr(m);
    assert s[..1] == (if m < 10 then "0" else NatStr(m)[..1]);
    s
  }

  /** The text before the padding. */
  function DurationCore(duration: nat): string {
    var hour := duration / 60;
    (if hour != 0 then NatStr(hour) + "h" else "") + TwoDigits(duration % 60) + "min"
  }

  /** `format_duration` for a whole number of minutes. */
  function FormatDuration(duration: nat): (s: string)
    ensures |s| >= DURATION_WIDTH
  {
    PadEnd(DurationCore(duration), DURATION_WIDTH, FILL)
  }

  /** Reads a formatted duration back into minutes. */
  function ParseDuration(s: string): Option<nat> {
    ParseDurationCore(TrimFill(s))
  }

  function ParseDurationCore(t: string): Option<nat> {
    if |t| < 5 || t[|t| - 3] != 'm' || t[|t| - 2] != 'i' || t[|t| - 1] != 'n' then None
    else Some(ReadClock(t[..|t| - 3]))
  }

  /** Hours before an `h`, if there is one, then minutes. */
  function ReadClock(body: string): nat {
    var i := IndexOf(body, 'h');
    if i == |body| then ParseNat(body) else 60 * ParseNat(body[..i]) + ParseNat(body[i + 1..])
  }

  lemma StripMin(body: string)
    requires |body| >= 2
    ensures ParseDurationCore(body + "min") == Some(ReadClock(body))
  {
    var t := body + "min";
    assert t[..|body|] == body;
    MinShape(t);
  }

  lemma MinShape(t: string)
    requires |t| >= 5 && t[|t| - 3] == 'm' && t[|t| - 2] == 'i' && t[|t| - 1] == 'n'
    ensures ParseDurationCore(t) == Some(ReadClock(t[..|t| - 3]))
  {
  }

  lemma DigitsHaveNoH(s: string)
    requires AllDigits(s)
    ensures 'h' !in s
  {
    assert forall i :: 0 <= i < |s| ==> IsDigit(s[i]);
  }

  /** Hours and minutes are read back from a clock with an hour part. */
  lemma ReadHoursMinutes(hs: string, mm: string)
    requires AllDigits(hs) && AllDigits(mm)
    ensures ReadClock(hs + ("h" + mm)) == 60 * ParseNat(hs) + ParseNat(mm)
  {
    var body := hs + ("h" + mm);
    DigitsHaveNoH(hs);
    IndexOfPrefix(hs, 'h', "h" + mm);
    assert body[..|hs|] == hs;
    assert body[|hs| + 1..] == mm;
  }

  /** The minutes are read back from a clock without an hour part. */
  lemma ReadMinutes(mm: string)
    requires AllDigits(mm)
    ensures ReadClock(mm) == ParseNat(mm)
  {
    DigitsHaveNoH(mm);
  }

  /** The hours, when present, and the minutes are read back from the text
      before the padding. */
  lemma DurationCoreRoundTrip(duration: nat)
    ensures ParseDurationCore(DurationCore(duration)) == Some(duration)
  {
    if duration / 60 != 0 {
      WithHours(duration);
    } else {
      WithoutHours(duration);
    }
  }

  lemma WithHours(duration: nat)
    requires duration / 60 != 0
    ensures ParseDurationCore(DurationCore(duration)) == Some(duration)
  {
    var hs := NatStr(duration / 60);
    var mm := TwoDigits(duration % 60);
    var body := hs + ("h" + mm);
    ParseNatStr(duration / 60);
    assert DurationCore(duration) == body + "min";
    StripMin(body);
    ReadHoursMinutes(hs, mm);
  }

  lemma WithoutHours(duration: nat)
    requires duration / 60 == 0
    ensures ParseDurationCore(DurationCore(duration)) == Some(duration)
  {
    var mm := TwoDigits(duration % 60);
    assert DurationCore(duration) == mm + "min";
    StripMin(mm);
    ReadMinutes(mm);
  }

  /** A formatted duration reads back as the same number of minutes: the
      formatter loses nothing. */
  lemma DurationRoundTrip(duration: nat)
    ensures ParseDuration(FormatDuration(duration)) == Some(duration)
  {
    var core := DurationCore(duration);
    PadEndIsAppend(core, DURATION_WIDTH, FILL);
    TrimPadded(core, if |core| < DURATION_WIDTH then DURATION_WIDTH - |core| else 0);
    DurationCoreRoundTrip(duration);
  }

  // ---------------------------------------------------------------------------
  // Distances

  /** The divisor turning a score into kilometres: 1200 for a flat triangle,
      1400 for an FAI triangle, 1000 otherwise. */
  function KmDivisor(code: string): (m: nat)
    ensures m as real == 1000.0 * Multiplier(code)
  {
    if code == TRIANGLE_CODE then 1200 else if code == FAI_CODE then 1400 else 1000
  }

  /** `(score / divisor).toFixed(1)` as a count of tenths: the nearest integer
      to `10 * score / divisor`, the larger one on a tie. */
  function Tenths(score: nat, code: string): (n: nat)
    ensures var m := KmDivisor(code);
      && 2 * (n * m) <= 20 * score + m
      && 20 * score + m < 2 * (n * m) + 2 * m
  {
    var m := KmDivisor(code);
    (20 * score + m) / (2 * m)
  }

  /** The text before the padding: whole kilometres, a point, one decimal. */
  function DistanceCore(score: nat, code: string): string {
    var n := Tenths(score, code);
    NatStr(n / 10) + "." + [DigitChar(n % 10)] + "km"
  }

  /** `format_distance` for a whole score. */
  function FormatDistance(score: nat, code: string): (s: string)
    ensures |s| >= DISTANCE_WIDTH
  {
    PadEnd(DistanceCore(score, code), DISTANCE_WIDTH, FILL)
  }

  /** Reads a formatted distance back as a count of tenths of a kilometre. */
  function ParseDistance(s: string): Option<nat> {
    ParseDistanceCore(TrimFill(s))
  }

  function ParseDistanceCore(t: string): Option<nat> {
    if |t| < 5 || t[|t| - 4] != '.' || t[|t| - 2] != 'k' || t[|t| - 1] != 'm' then None
    else Some(10 * ParseNat(t[..|t| - 4]) + DigitOrZero(t[|t| - 3]))
  }

  lemma DistanceShape(t: string)
    requires |t| >= 5 && t[|t| - 4] == '.' && t[|t| - 2] == 'k' && t[|t| - 1] == 'm'
    ensures ParseDistanceCore(t) == Some(10 * ParseNat(t[..|t| - 4]) + DigitOrZero(t[|t| - 3]))
  {
  }

  /** Kilometres and a decimal are read back from a text with the shape of
      the one before the padding. */
  lemma ReadKilometres(ks: string, d: char)
    requires |ks| >= 1
    ensures ParseDistanceCore(ks + ['.', d, 'k', 'm']) == Some(10 * ParseNat(ks) + DigitOrZero(d))
  {
    var t := ks + ['.', d, 'k', 'm'];
    assert t[..|ks|] == ks;
    DistanceShape(t);
  }

  /** Kilometres and tenths are read back from the text before the padding. */
  lemma DistanceCoreRoundTrip(n: nat)
    ensures ParseDistanceCore(NatStr(n / 10) + "." + [DigitChar(n % 10)] + "km") == Some(n)
  {
    var ks := NatStr(n / 10);
    ParseNatStr(n / 10);
    assert ks + "." + [DigitChar(n % 10)] + "km" == ks + ['.', DigitChar(n % 10), 'k', 'm'];
    ReadKilometres(ks, DigitChar(n % 10));
  }

  /** A formatted distance reads back as its rounded number of tenths. */
  lemma DistanceRoundTrip(score: nat, code: string)
    ensures ParseDistance(FormatDistance(score, code)) == Some(Tenths(score, code))
  {
    var core := DistanceCore(score, code);
    PadEndIsAppend(core, DISTANCE_WIDTH, FILL);
    TrimPadded(core, if |core| < DISTANCE_WIDTH then DISTANCE_WIDTH - |core| else 0);
    DistanceCoreRoundTrip(Tenths(score, code));
  }

  /** The rounding is to the nearest tenth: the text is within 0.05 km of the
      score divided by the divisor, and exactly halfway only when rounded up. */
  lemma TenthsNearest(score: nat, code: string)
    ensures var m := KmDivisor(code) as real;
      var x := score as real / m;
      var y := Tenths(score, code) as real / 10.0;
      -0.05 < y - x <= 0.05
  {
    var m := KmDivisor(code) as real;
    var n := Tenths(score, code) as real;
    assert 2.0 * n * m <= 20.0 * score as real + m;
    assert 20.0 * score as real + m < 2.0 * n * m + 2.0 * m;
  }
}
