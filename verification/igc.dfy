/** The lenient IGC decoder (FAI/IGC Technical Specification for GNSS flight
    recorders, Appendix A): `H` lines carrying `FDTE` set the flight date, `B`
    lines are fixes, the last `G` line is the security record. Every missing or
    non-digit character in a digit position reads as 0, and an impossible date
    or time never stops the decoding.

    Two copies of this decoder exist in the repository; they differ only in the
    timestamp used when a fix's time of day is impossible, which is therefore a
    parameter here (`YEAR_ZERO` in the trace manager, `UNIX_EPOCH` in the desktop
    back end). */
module Igc {
  import opened Common
  import opened Text
  import opened Calendar
  import opened Geo

  /** The date in force before any `HFDTE` header: 0000-01-01. */
  const INITIAL_DATE: Date := Date(0, 1, 1)

  /** Length of a complete B record, the leading 'B' included. */
  const RECORD_LENGTH: nat := 35

  // ---------------------------------------------------------------------------
  // Fixed-width numbers

  function Pow10(n: nat): (p: nat)
    ensures p >= 1
  {
    if n == 0 then 1 else 10 * Pow10(n - 1)
  }

  /** The `w`-digit number starting at position `from`, each missing or non-digit
      character counting as 0. */
  function Num(s: string, from: nat, w: nat): (v: nat)
    ensures v < Pow10(w)
  {
    if w == 0 then 0 else 10 * Num(s, from, w - 1) + DigitAt(s, from + w - 1)
  }

  /** The fixed-width numbers of two, three and five digits, digit by digit. */
  lemma NumExpand(s: string, from: nat)
    ensures Num(s, from, 2) == 10 * DigitAt(s, from) + DigitAt(s, from + 1)
    ensures Num(s, from, 3) == 100 * DigitAt(s, from) + 10 * DigitAt(s, from + 1) + DigitAt(s, from + 2)
    ensures Num(s, from, 5) == 10000 * DigitAt(s, from) + 1000 * DigitAt(s, from + 1)
      + 100 * DigitAt(s, from + 2) + 10 * DigitAt(s, from + 3) + DigitAt(s, from + 4)
  {
    assert Num(s, from, 1) == DigitAt(s, from);
    assert Num(s, from, 2) == 10 * Num(s, from, 1) + DigitAt(s, from + 1);
    assert Num(s, from, 3) == 10 * Num(s, from, 2) + DigitAt(s, from + 2);
    assert Num(s, from, 4) == 10 * Num(s, from, 3) + DigitAt(s, from + 3);
    assert Num(s, from, 5) == 10 * Num(s, from, 4) + DigitAt(s, from + 4);
  }

  /** `n` written with exactly `w` digits, zero-padded on the left. */
  function Fixed(n: nat, w: nat): (s: string)
    ensures |s| == w
    ensures AllDigits(s)
  {
    if w == 0 then [] else Fixed(n / 10, w - 1) + [DigitChar(n % 10)]
  }

  /** Reading a fixed-width field back gives the number written into it. */
  lemma {:induction false} NumFixed(s: string, from: nat, n: nat, w: nat)
    requires from + w <= |s|
    requires s[from..from + w] == Fixed(n, w)
    requires n < Pow10(w)
    ensures Num(s, from, w) == n
  {
    if w > 0 {
      assert s[from..from + w - 1] == s[from..from + w][..w - 1];
      assert s[from + w - 1] == s[from..from + w][w - 1];
      NumFixed(s, from, n / 10, w - 1);
    }
  }

  /** Writing back a field of digits gives the field. */
  lemma {:induction false} FixedNum(s: string, from: nat, w: nat)
    requires from + w <= |s|
    requires AllDigits(s[from..from + w])
    ensures Fixed(Num(s, from, w), w) == s[from..from + w]
  {
    if w > 0 {
      var n := Num(s, from, w);
      assert s[from + w - 1] == s[from..from + w][w - 1];
      assert AllDigits(s[from..from + w - 1]) by {
        assert s[from..from + w - 1] == s[from..from + w][..w - 1];
      }
      FixedNum(s, from, w - 1);
      assert n / 10 == Num(s, from, w - 1);
      assert n % 10 == DigitAt(s, from + w - 1);
      assert s[from..from + w] == s[from..from + w - 1] + [s[from + w - 1]];
    }
  }

  // ---------------------------------------------------------------------------
  // B records

  /** The raw fields of a B record: HHMMSS, DDMMmmm + N/S, DDDMMmmm + E/W,
      validity, 5-digit pressure altitude, 5-digit GNSS altitude. The minutes of
      each coordinate are kept in thousandths (`MMmmm`). */
  datatype RawFix = RawFix(
    hour: nat, minute: nat, second: nat,
    latDeg: nat, latMilliMin: nat, latHem: char,
    longDeg: nat, longMilliMin: nat, longHem: char,
    validity: char, alt: nat, altGps: nat)

  /** Every field fits its width. */
  predicate InRange(r: RawFix) {
    && r.hour < 100 && r.minute < 100 && r.second < 100
    && r.latDeg < 100 && r.latMilliMin < 100000
    && r.longDeg < 1000 && r.longMilliMin < 100000
    && r.alt < 100000 && r.altGps < 100000
  }

  /** The fixed-width fields of a B line, read leniently (character 0 is the 'B'). */
  function DecodeRaw(line: string): (r: RawFix)
    ensures InRange(r)
  {
    RawFix(
      Num(line, 1, 2), Num(line, 3, 2), Num(line, 5, 2),
      Num(line, 7, 2), Num(line, 9, 5), CharAtOr(line, 14, '0'),
      Num(line, 15, 3), Num(line, 18, 5), CharAtOr(line, 23, '0'),
      CharAtOr(line, 24, '0'), Num(line, 25, 5), Num(line, 30, 5))
  }

  /** The B line a recorder writes for the given fields. */
  function EncodeRaw(r: RawFix): (line: string)
    ensures |line| == RECORD_LENGTH
  {
    "B" + Fixed(r.hour, 2) + Fixed(r.minute, 2) + Fixed(r.second, 2)
    + Fixed(r.latDeg, 2) + Fixed(r.latMilliMin, 5) + [r.latHem]
    + Fixed(r.longDeg, 3) + Fixed(r.longMilliMin, 5) + [r.longHem]
    + [r.validity] + Fixed(r.alt, 5) + Fixed(r.altGps, 5)
  }

  /** A B line whose every digit position holds a digit. */
  predicate WellFormedRecord(line: string) {
    && |line| >= RECORD_LENGTH && line[0] == 'B'
    && AllDigits(line[1..14]) && AllDigits(line[15..23]) && AllDigits(line[25..35])
  }

  /** Decoding a written record gives back its fields. */
  lemma DecodeEncode(r: RawFix)
    requires InRange(r)
    ensures DecodeRaw(EncodeRaw(r)) == r
  {
    var s := EncodeRaw(r);
    assert s[1..3] == Fixed(r.hour, 2);
    assert s[3..5] == Fixed(r.minute, 2);
    assert s[5..7] == Fixed(r.second, 2);
    assert s[7..9] == Fixed(r.latDeg, 2);
    assert s[9..14] == Fixed(r.latMilliMin, 5);
    assert s[15..18] == Fixed(r.longDeg, 3);
    assert s[18..23] == Fixed(r.longMilliMin, 5);
    assert s[25..30] == Fixed(r.alt, 5);
    assert s[30..35] == Fixed(r.altGps, 5);
    NumFixed(s, 1, r.hour, 2);
    NumFixed(s, 3, r.minute, 2);
    NumFixed(s, 5, r.second, 2);
    NumFixed(s, 7, r.latDeg, 2);
    NumFixed(s, 9, r.latMilliMin, 5);
    NumFixed(s, 15, r.longDeg, 3);
    NumFixed(s, 18, r.longMilliMin, 5);
    NumFixed(s, 25, r.alt, 5);
    NumFixed(s, 30, r.altGps, 5);
  }

  lemma AllDigitsSlice(s: string, a: nat, b: nat, c: nat, d: nat)
    requires a <= c <= d <= b <= |s|
    requires AllDigits(s[a..b])
    ensures AllDigits(s[c..d])
  {
    forall i | 0 <= i < d - c ensures IsDigit(s[c..d][i]) {
      assert s[c..d][i] == s[a..b][c - a + i];
    }
  }

  /** Each digit field of a well-formed record is written back unchanged. */
  lemma FieldsRoundTrip(line: string)
    requires WellFormedRecord(line)
    ensures Fixed(Num(line, 1, 2), 2) == line[1..3]
    ensures Fixed(Num(line, 3, 2), 2) == line[3..5]
    ensures Fixed(Num(line, 5, 2), 2) == line[5..7]
    ensures Fixed(Num(line, 7, 2), 2) == line[7..9]
    ensures Fixed(Num(line, 9, 5), 5) == line[9..14]
    ensures Fixed(Num(line, 15, 3), 3) == line[15..18]
    ensures Fixed(Num(line, 18, 5), 5) == line[18..23]
    ensures Fixed(Num(line, 25, 5), 5) == line[25..30]
    ensures Fixed(Num(line, 30, 5), 5) == line[30..35]
  {
    AllDigitsSlice(line, 1, 14, 1, 3);
    AllDigitsSlice(line, 1, 14, 3, 5);
    AllDigitsSlice(line, 1, 14, 5, 7);
    AllDigitsSlice(line, 1, 14, 7, 9);
    AllDigitsSlice(line, 1, 14, 9, 14);
    AllDigitsSlice(line, 15, 23, 15, 18);
    AllDigitsSlice(line, 15, 23, 18, 23);
    AllDigitsSlice(line, 25, 35, 25, 30);
    AllDigitsSlice(line, 25, 35, 30, 35);
    FixedNum(line, 1, 2);
    FixedNum(line, 3, 2);
    FixedNum(line, 5, 2);
    FixedNum(line, 7, 2);
    FixedNum(line, 9, 5);
    FixedNum(line, 15, 3);
    FixedNum(line, 18, 5);
    FixedNum(line, 25, 5);
    FixedNum(line, 30, 5);
  }

  /** Writing a decoded well-formed record reproduces the record. */
  lemma EncodeDecode(line: string)
    requires WellFormedRecord(line)
    ensures EncodeRaw(DecodeRaw(line)) == line[..RECORD_LENGTH]
  {
    FieldsRoundTrip(line);
    var s := EncodeRaw(DecodeRaw(line));
    forall i | 0 <= i < RECORD_LENGTH ensures s[i] == line[i] {
      if 1 <= i < 3 { assert s[1..3] == line[1..3]; assert s[i] == s[1..3][i - 1]; }
      else if 3 <= i < 5 { assert s[3..5] == line[3..5]; assert s[i] == s[3..5][i - 3]; }
      else if 5 <= i < 7 { assert s[5..7] == line[5..7]; assert s[i] == s[5..7][i - 5]; }
      else if 7 <= i < 9 { assert s[7..9] == line[7..9]; assert s[i] == s[7..9][i - 7]; }
      else if 9 <= i < 14 { assert s[9..14] == line[9..14]; assert s[i] == s[9..14][i - 9]; }
      else if 15 <= i < 18 { assert s[15..18] == line[15..18]; assert s[i] == s[15..18][i - 15]; }
      else if 18 <= i < 23 { assert s[18..23] == line[18..23]; assert s[i] == s[18..23][i - 18]; }
      else if 25 <= i < 30 { assert s[25..30] == line[25..30]; assert s[i] == s[25..30][i - 25]; }
      else if 30 <= i < 35 { assert s[30..35] == line[30..35]; assert s[i] == s[30..35][i - 30]; }
    }
  }

  /** `to_decimal`: degrees plus minutes / 60, negative in the southern and
      western hemispheres. */
  function ToDecimal(degree: nat, minute: real, hemisphere: char): (r: real)
    requires minute >= 0.0
    ensures hemisphere == 'S' || hemisphere == 'W' ==> r <= 0.0
    ensures hemisphere != 'S' && hemisphere != 'W' ==> r >= 0.0
  {
    var decimal := degree as real + minute / 60.0;
    if hemisphere == 'S' || hemisphere == 'W' then -decimal else decimal
  }

  /** The decimal coordinate determines degrees and minutes again: its integral
      part is the degree count and its fractional part, times 60, the minutes
      (for minutes below 60, as a recorder writes them). */
  lemma ToDecimalInverse(degree: nat, minute: real, hemisphere: char)
    requires 0.0 <= minute < 60.0
    ensures var m := if hemisphere == 'S' || hemisphere == 'W' then -ToDecimal(degree, minute, hemisphere) else ToDecimal(degree, minute, hemisphere);
            m.Floor == degree && (m - degree as real) * 60.0 == minute
  {
  }

  /** The time of day is built on the date in force; an impossible time of day
      gives the fallback timestamp. */
  function MakeTime(date: Date, hour: nat, minute: nat, second: nat, fallback: DateTime): (t: DateTime)
    ensures hour < 24 && minute < 60 && second < 60 ==> t.date == date && t.second == 3600 * hour + 60 * minute + second
    ensures !(hour < 24 && minute < 60 && second < 60) ==> t == fallback
  {
    match AndHms(date, hour, minute, second)
    case Some(t) => t
    case None => fallback
  }

  /** Converts the raw fields of a record into a fix. */
  function FixOf(r: RawFix, date: Date, fallback: DateTime): Fix {
    Fix(MakeTime(date, r.hour, r.minute, r.second, fallback),
        ToDecimal(r.latDeg, r.latMilliMin as real / 1000.0, r.latHem),
        ToDecimal(r.longDeg, r.longMilliMin as real / 1000.0, r.longHem),
        r.alt, r.altGps)
  }

  /** `process_record`. */
  function ProcessRecord(line: string, date: Date, fallback: DateTime): (f: Fix)
    ensures f.alt <= 99999 && f.altGps <= 99999
  {
    FixOf(DecodeRaw(line), date, fallback)
  }

  // ---------------------------------------------------------------------------
  // HFDTE headers

  /** Position of the first numeric character of `s` at or after `from`
      (`|s|` when there is none). */
  function SkipNonNumeric(s: string, from: nat): (k: nat)
    ensures from <= k || k == |s|
    ensures k <= |s| || k == from
    ensures k < |s| ==> IsDigit(s[k])
    ensures forall i :: from <= i < k && i < |s| ==> !IsDigit(s[i])
    decreases |s| - from
  {
    if from >= |s| then from
    else if IsDigit(s[from]) then from
    else SkipNonNumeric(s, from + 1)
  }

  /** The day, month and year digits after the first numeric character: DDMMYY,
      the year read as 2000 + YY, each missing or non-digit character as 0. */
  function DateFields(line: string): (Date)
  {
    var k := SkipNonNumeric(line, 0);
    Date(2000 + Num(line, k + 4, 2), Num(line, k + 2, 2), Num(line, k, 2))
  }

  /** `process_date`: the header's date, or nothing if it is not a calendar date. */
  function ProcessDate(line: string): (r: Option<Date>)
    ensures r.Some? ==> ValidDate(r.value) && 2000 <= r.value.year <= 2099
    ensures r.Some? <==> ValidDate(DateFields(line))
    ensures r.Some? ==> r.value == DateFields(line)
  {
    FromYmd(DateFields(line).year, DateFields(line).month, DateFields(line).day)
  }

  /** A header cut short after the month reads its missing year digits as 0:
      `HFDTE1505` is 15 May 2000. */
  lemma ShortHeaderDate()
    ensures ProcessDate("HFDTE1505") == Some(Date(2000, 5, 15))
  {
    var line := "HFDTE1505";
    SkipPrefix(line, 5, 0);
    NumExpand(line, 5);
    NumExpand(line, 7);
    NumExpand(line, 9);
  }

  /** A header whose first digits are DDMMYY of a calendar date, for example
      `HFDTE150523` or `HFDTEDATE:150523,01`, decodes to that date. */
  lemma ProcessDateOfHeader(line: string, k: nat, dd: nat, mm: nat, yy: nat)
    requires k + 6 <= |line|
    requires forall i :: 0 <= i < k ==> !IsDigit(line[i])
    requires dd < 100 && mm < 100 && yy < 100
    requires line[k..k + 2] == Fixed(dd, 2) && line[k + 2..k + 4] == Fixed(mm, 2) && line[k + 4..k + 6] == Fixed(yy, 2)
    requires ValidDate(Date(2000 + yy, mm, dd))
    ensures ProcessDate(line) == Some(Date(2000 + yy, mm, dd))
  {
    assert IsDigit(line[k]) by { assert line[k] == Fixed(dd, 2)[0]; }
    SkipPrefix(line, k, 0);
    NumFixed(line, k, dd, 2);
    NumFixed(line, k + 2, mm, 2);
    NumFixed(line, k + 4, yy, 2);
  }

  lemma {:induction false} SkipPrefix(s: string, k: nat, from: nat)
    requires from <= k < |s| && IsDigit(s[k])
    requires forall i :: from <= i < k ==> !IsDigit(s[i])
    ensures SkipNonNumeric(s, from) == k
    decreases k - from
  {
    if from < k {
      SkipPrefix(s, k, from + 1);
    }
  }

  // ---------------------------------------------------------------------------
  // Line classification and the reader

  predicate IsRecord(line: string) { |line| > 0 && line[0] == 'B' }
  predicate IsHeader(line: string) { |line| > 0 && line[0] == 'H' }
  predicate IsSecurity(line: string) { |line| > 0 && line[0] == 'G' }

  /** `line[1..5]` can be taken: byte 5 exists and starts a character. */
  predicate TagSliceOk(line: string) {
    BoundaryAt(line, 5)
  }

  /** Bytes 1 to 4 of the line are `FDTE`. */
  predicate IsDateTag(line: string) {
    |line| >= 5 && line[1..5] == "FDTE"
  }

  /** An ASCII header line can be sliced exactly when it has at least 5 characters. */
  lemma TagSliceOkAscii(line: string)
    requires forall i :: 0 <= i < |line| ==> line[i] as int < 0x80
    ensures TagSliceOk(line) <==> |line| >= 5
  {
    BoundaryAtAscii(line, 5);
  }

  /** Decoder state: the fixes so far, the date in force, the security record. */
  datatype Reader = Reader(trace: seq<Fix>, date: Date, check: string)

  const START: Reader := Reader([], INITIAL_DATE, "")

  /** The effect of one line. */
  function Step(st: Reader, line: string, fallback: DateTime): (r: Outcome<Reader>)
    ensures r.Panic? <==> IsHeader(line) && !TagSliceOk(line)
  {
    if IsRecord(line) then
      Done(st.(trace := st.trace + [ProcessRecord(line, st.date, fallback)]))
    else if IsHeader(line) then
      if !TagSliceOk(line) then Panic("byte index 5 is out of bounds or not a char boundary")
      else if IsDateTag(line) then
        match ProcessDate(line)
        case Some(d) => Done(st.(date := d))
        case None => Done(st)
      else Done(st)
    else if IsSecurity(line) then
      Done(st.(check := line[1..]))
    else
      Done(st)
  }

  /** The decoder run over a sequence of lines, in order. */
  function ReadLines(lines: seq<string>, fallback: DateTime): Outcome<Reader>
    decreases |lines|
  {
    if lines == [] then Done(START)
    else
      match ReadLines(lines[..|lines| - 1], fallback)
      case Panic(m) => Panic(m)
      case Done(st) => Step(st, lines[|lines| - 1], fallback)
  }

  /** `read` / `FlightTrace::new`'s decoding loop over the text of a file. */
  function Read(text: string, fallback: DateTime): Outcome<Reader> {
    ReadLines(Lines(text), fallback)
  }

  // ---------------------------------------------------------------------------
  // What the reader computes, component by component

  /** Number of B lines. */
  function CountRecords(lines: seq<string>): (n: nat)
    ensures n <= |lines|
    decreases |lines|
  {
    if lines == [] then 0
    else CountRecords(lines[..|lines| - 1]) + (if IsRecord(lines[|lines| - 1]) then 1 else 0)
  }

  /** A header line that would replace the date in force. */
  predicate SetsDate(line: string) {
    IsHeader(line) && TagSliceOk(line) && IsDateTag(line) && ProcessDate(line).Some?
  }

  /** The date in force after the given lines. */
  function DateAfter(lines: seq<string>): (d: Date)
    decreases |lines|
  {
    if lines == [] then INITIAL_DATE
    else if SetsDate(lines[|lines| - 1]) then ProcessDate(lines[|lines| - 1]).value
    else DateAfter(lines[..|lines| - 1])
  }

  /** The date in force is that of the last header line that carries a valid
      date, or 0000-01-01 when there is none. */
  lemma DateAfterIsLastValidHeader(lines: seq<string>)
    ensures (forall k :: 0 <= k < |lines| ==> !SetsDate(lines[k])) ==> DateAfter(lines) == INITIAL_DATE
    ensures forall k :: 0 <= k < |lines| && SetsDate(lines[k])
              && (forall j :: k < j < |lines| ==> !SetsDate(lines[j]))
              ==> DateAfter(lines) == ProcessDate(lines[k]).value
  {
    if forall k :: 0 <= k < |lines| ==> !SetsDate(lines[k]) {
      DateAfterNoHeader(lines);
    }
    forall k | 0 <= k < |lines| && SetsDate(lines[k]) && (forall j :: k < j < |lines| ==> !SetsDate(lines[j]))
      ensures DateAfter(lines) == ProcessDate(lines[k]).value
    {
      DateAfterLastHeader(lines, k);
    }
  }

  lemma {:induction false} DateAfterNoHeader(lines: seq<string>)
    requires forall k :: 0 <= k < |lines| ==> !SetsDate(lines[k])
    ensures DateAfter(lines) == INITIAL_DATE
    decreases |lines|
  {
    if lines != [] {
      var pre := lines[..|lines| - 1];
      forall k | 0 <= k < |pre| ensures !SetsDate(pre[k]) { assert pre[k] == lines[k]; }
      DateAfterNoHeader(pre);
    }
  }

  lemma {:induction false} DateAfterLastHeader(lines: seq<string>, k: nat)
    requires k < |lines| && SetsDate(lines[k])
    requires forall j :: k < j < |lines| ==> !SetsDate(lines[j])
    ensures DateAfter(lines) == ProcessDate(lines[k]).value
    decreases |lines|
  {
    var n := |lines|;
    if k < n - 1 {
      var pre := lines[..n - 1];
      assert !SetsDate(lines[n - 1]);
      assert pre[k] == lines[k];
      forall j | k < j < |pre| ensures !SetsDate(pre[j]) { assert pre[j] == lines[j]; }
      DateAfterLastHeader(pre, k);
    }
  }

  /** The payload of the last G line, or "" when there is none. */
  function LastCheck(lines: seq<string>): string
    decreases |lines|
  {
    if lines == [] then ""
    else if IsSecurity(lines[|lines| - 1]) then lines[|lines| - 1][1..]
    else LastCheck(lines[..|lines| - 1])
  }

  /** The security string is the text after the 'G' of the last G line, and
      empty when the file has no G line. */
  lemma {:induction false} LastCheckIsLastG(lines: seq<string>)
    ensures (forall k :: 0 <= k < |lines| ==> !IsSecurity(lines[k])) ==> LastCheck(lines) == ""
    ensures forall k :: 0 <= k < |lines| && IsSecurity(lines[k])
              && (forall j :: k < j < |lines| ==> !IsSecurity(lines[j]))
              ==> LastCheck(lines) == lines[k][1..]
    decreases |lines|
  {
    if lines != [] {
      var n := |lines|;
      var pre := lines[..n - 1];
      LastCheckIsLastG(pre);
      if forall k :: 0 <= k < n ==> !IsSecurity(lines[k]) {
        assert forall k :: 0 <= k < |pre| ==> !IsSecurity(pre[k]) by {
          forall k | 0 <= k < |pre| ensures !IsSecurity(pre[k]) { assert pre[k] == lines[k]; }
        }
      }
      forall k | 0 <= k < n && IsSecurity(lines[k]) && (forall j :: k < j < n ==> !IsSecurity(lines[j]))
        ensures LastCheck(lines) == lines[k][1..]
      {
        if k < n - 1 {
          assert !IsSecurity(lines[n - 1]);
          assert pre[k] == lines[k];
          forall j | k < j < |pre| ensures !IsSecurity(pre[j]) { assert pre[j] == lines[j]; }
        }
      }
    }
  }

  /** The reader panics exactly when some H line is too short for the `FDTE`
      slice. Otherwise it yields one fix per B line in file order, each stamped
      with the date in force when its line is read; the final date is the last
      valid one and the security string is the last G line's payload. Lines of
      any other kind, empty lines included, change nothing. */
  lemma ReadLinesSpec(lines: seq<string>, fallback: DateTime)
    ensures ReadLines(lines, fallback).Panic?
            <==> exists k :: 0 <= k < |lines| && IsHeader(lines[k]) && !TagSliceOk(lines[k])
    ensures ReadLines(lines, fallback).Done? ==>
              var st := ReadLines(lines, fallback).value;
              && st.date == DateAfter(lines)
              && st.check == LastCheck(lines)
              && |st.trace| == CountRecords(lines)
              && forall k :: 0 <= k < |lines| && IsRecord(lines[k]) ==>
                   CountRecords(lines[..k]) < |st.trace|
                   && st.trace[CountRecords(lines[..k])] == ProcessRecord(lines[k], DateAfter(lines[..k]), fallback)
  {
    ReadLinesPanics(lines, fallback);
    if ReadLines(lines, fallback).Done? {
      ReadLinesState(lines, fallback);
      ReadLinesFixes(lines, fallback);
    }
  }

  lemma {:induction false} ReadLinesPanics(lines: seq<string>, fallback: DateTime)
    ensures ReadLines(lines, fallback).Panic?
            <==> exists k :: 0 <= k < |lines| && IsHeader(lines[k]) && !TagSliceOk(lines[k])
    decreases |lines|
  {
    if lines != [] {
      var n := |lines|;
      var pre := lines[..n - 1];
      ReadLinesPanics(pre, fallback);
      if ReadLines(pre, fallback).Panic? {
        var k :| 0 <= k < |pre| && IsHeader(pre[k]) && !TagSliceOk(pre[k]);
        assert lines[k] == pre[k];
      } else {
        forall k | 0 <= k < n - 1 ensures !(IsHeader(lines[k]) && !TagSliceOk(lines[k])) {
          assert pre[k] == lines[k];
        }
      }
    }
  }

  lemma {:induction false} ReadLinesState(lines: seq<string>, fallback: DateTime)
    requires ReadLines(lines, fallback).Done?
    ensures var st := ReadLines(lines, fallback).value;
              && st.date == DateAfter(lines)
              && st.check == LastCheck(lines)
              && |st.trace| == CountRecords(lines)
    decreases |lines|
  {
    if lines != [] {
      ReadLinesState(lines[..|lines| - 1], fallback);
    }
  }

  lemma {:induction false} ReadLinesFixes(lines: seq<string>, fallback: DateTime)
    requires ReadLines(lines, fallback).Done?
    ensures var st := ReadLines(lines, fallback).value;
              forall k :: 0 <= k < |lines| && IsRecord(lines[k]) ==>
                CountRecords(lines[..k]) < |st.trace|
                && st.trace[CountRecords(lines[..k])] == ProcessRecord(lines[k], DateAfter(lines[..k]), fallback)
    decreases |lines|
  {
    if lines != [] {
      var n := |lines|;
      var pre := lines[..n - 1];
      ReadLinesFixes(pre, fallback);
      ReadLinesState(pre, fallback);
      var st0 := ReadLines(pre, fallback).value;
      var st := ReadLines(lines, fallback).value;
      StepTrace(st0, lines[n - 1], fallback);
      forall k | 0 <= k < n && IsRecord(lines[k])
        ensures CountRecords(lines[..k]) < |st.trace|
        ensures st.trace[CountRecords(lines[..k])] == ProcessRecord(lines[k], DateAfter(lines[..k]), fallback)
      {
        if k < n - 1 {
          assert pre[k] == lines[k];
          assert pre[..k] == lines[..k];
          assert st.trace[CountRecords(pre[..k])] == st0.trace[CountRecords(pre[..k])];
        } else {
          assert lines[..k] == pre;
        }
      }
    }
  }

  /** One line appends at most its own fix to the trace. */
  lemma StepTrace(st: Reader, line: string, fallback: DateTime)
    requires Step(st, line, fallback).Done?
    ensures Step(st, line, fallback).value.trace
            == st.trace + (if IsRecord(line) then [ProcessRecord(line, st.date, fallback)] else [])
  {
  }

  /** Every fix the reader produces has a timestamp with a month in range, as
      long as the fallback timestamp has one: the date in force is always the
      initial date or a header's calendar date. */
  lemma {:induction false} ReadLinesDated(lines: seq<string>, fallback: DateTime)
    requires 1 <= fallback.date.month <= 12
    requires ReadLines(lines, fallback).Done?
    ensures var st := ReadLines(lines, fallback).value;
      && 1 <= st.date.month <= 12
      && forall k :: 0 <= k < |st.trace| ==> 1 <= st.trace[k].time.date.month <= 12
    decreases |lines|
  {
    if lines != [] {
      var pre := lines[..|lines| - 1];
      ReadLinesDated(pre, fallback);
      StepTrace(ReadLines(pre, fallback).value, lines[|lines| - 1], fallback);
    }
  }
}
