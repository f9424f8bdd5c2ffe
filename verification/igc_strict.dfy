/** The strict IGC decoder of the command-line tool: the same line layout as the
    lenient decoder, but every missing or non-digit character, every impossible
    date and every impossible time of day aborts (an `unwrap` on `None`). It
    reads only `B` and `HFDTE` lines; `G` lines are ignored. */
module IgcStrict {
  import opened Common
  import opened Text
  import opened Calendar
  import opened Geo
  import opened Igc

  const NO_SUCH_TIME: string := "No such local time"

  /** The six characters after the first numeric one exist and are digits. */
  predicate DateDigitsPresent(line: string) {
    var k := SkipNonNumeric(line, 0);
    k + 6 <= |line| && AllDigits(line[k..k + 6])
  }

  /** `process_date` of the strict decoder. */
  function ProcessDateStrict(line: string): (r: Outcome<Date>)
    ensures r.Done? <==> DateDigitsPresent(line) && ValidDate(DateFields(line))
    ensures r.Done? ==> r.value == DateFields(line)
  {
    if !DateDigitsPresent(line) then Panic(UNWRAP_NONE)
    else
      var k := SkipNonNumeric(line, 0);
      var day := 10 * DigitOrZero(line[k]) + DigitOrZero(line[k + 1]);
      var month := 10 * DigitOrZero(line[k + 2]) + DigitOrZero(line[k + 3]);
      var year := 2000 + 10 * DigitOrZero(line[k + 4]) + DigitOrZero(line[k + 5]);
      NumExpand(line, k);
      NumExpand(line, k + 2);
      NumExpand(line, k + 4);
      assert Date(year, month, day) == DateFields(line);
      match FromYmd(year, month, day)
      case Some(d) => Done(d)
      case None => Panic(NO_SUCH_TIME)
  }

  /** Where the strict date decoder succeeds, the lenient one yields the same date. */
  lemma StrictDateAgrees(line: string)
    requires ProcessDateStrict(line).Done?
    ensures ProcessDate(line) == Some(ProcessDateStrict(line).value)
  {
  }

  /** `process_record` of the strict decoder. */
  function ProcessRecordStrict(line: string, date: Date): (r: Outcome<Fix>)
    requires IsRecord(line)
  {
    if !WellFormedRecord(line) then Panic(UNWRAP_NONE)
    else
      var hour := 10 * DigitOrZero(line[1]) + DigitOrZero(line[2]);
      var minute := 10 * DigitOrZero(line[3]) + DigitOrZero(line[4]);
      var second := 10 * DigitOrZero(line[5]) + DigitOrZero(line[6]);
      var latDeg := 10 * DigitOrZero(line[7]) + DigitOrZero(line[8]);
      var latMin := (10 * DigitOrZero(line[9]) + DigitOrZero(line[10])) as real
        + DigitOrZero(line[11]) as real / 10.0 + DigitOrZero(line[12]) as real / 100.0
        + DigitOrZero(line[13]) as real / 1000.0;
      var longDeg := 100 * DigitOrZero(line[15]) + 10 * DigitOrZero(line[16]) + DigitOrZero(line[17]);
      var longMin := (10 * DigitOrZero(line[18]) + DigitOrZero(line[19])) as real
        + DigitOrZero(line[20]) as real / 10.0 + DigitOrZero(line[21]) as real / 100.0
        + DigitOrZero(line[22]) as real / 1000.0;
      var alt := 10000 * DigitOrZero(line[25]) + 1000 * DigitOrZero(line[26]) + 100 * DigitOrZero(line[27])
        + 10 * DigitOrZero(line[28]) + DigitOrZero(line[29]);
      var altGps := 10000 * DigitOrZero(line[30]) + 1000 * DigitOrZero(line[31]) + 100 * DigitOrZero(line[32])
        + 10 * DigitOrZero(line[33]) + DigitOrZero(line[34]);
      match AndHms(date, hour, minute, second)
      case None => Panic(NO_SUCH_TIME)
      case Some(t) =>
        Done(Fix(t, ToDecimal(latDeg, latMin, line[14]), ToDecimal(longDeg, longMin, line[23]), alt, altGps))
  }

  /** The lenient fields of a well-formed record, digit by digit. */
  lemma DecodeRawDigits(line: string)
    requires WellFormedRecord(line)
    ensures var r := DecodeRaw(line);
      && r.hour == 10 * DigitOrZero(line[1]) + DigitOrZero(line[2])
      && r.minute == 10 * DigitOrZero(line[3]) + DigitOrZero(line[4])
      && r.second == 10 * DigitOrZero(line[5]) + DigitOrZero(line[6])
      && r.latDeg == 10 * DigitOrZero(line[7]) + DigitOrZero(line[8])
      && r.latMilliMin == 10000 * DigitOrZero(line[9]) + 1000 * DigitOrZero(line[10])
           + 100 * DigitOrZero(line[11]) + 10 * DigitOrZero(line[12]) + DigitOrZero(line[13])
      && r.latHem == line[14]
      && r.longDeg == 100 * DigitOrZero(line[15]) + 10 * DigitOrZero(line[16]) + DigitOrZero(line[17])
      && r.longMilliMin == 10000 * DigitOrZero(line[18]) + 1000 * DigitOrZero(line[19])
           + 100 * DigitOrZero(line[20]) + 10 * DigitOrZero(line[21]) + DigitOrZero(line[22])
      && r.longHem == line[23]
      && r.alt == 10000 * DigitOrZero(line[25]) + 1000 * DigitOrZero(line[26]) + 100 * DigitOrZero(line[27])
           + 10 * DigitOrZero(line[28]) + DigitOrZero(line[29])
      && r.altGps == 10000 * DigitOrZero(line[30]) + 1000 * DigitOrZero(line[31]) + 100 * DigitOrZero(line[32])
           + 10 * DigitOrZero(line[33]) + DigitOrZero(line[34])
  {
    NumExpand(line, 1);
    NumExpand(line, 3);
    NumExpand(line, 5);
    NumExpand(line, 7);
    NumExpand(line, 9);
    NumExpand(line, 15);
    NumExpand(line, 18);
    NumExpand(line, 25);
    NumExpand(line, 30);
  }

  /** The strict decoder accepts a B line exactly when every digit position holds
      a digit and the time of day exists; it then decodes the same fix as the
      lenient decoder (whose fallback timestamp is never used). */
  lemma StrictRecordAgrees(line: string, date: Date, fallback: DateTime)
    requires IsRecord(line)
    ensures ProcessRecordStrict(line, date).Done?
            <==> WellFormedRecord(line) && DecodeRaw(line).hour < 24 && DecodeRaw(line).minute < 60 && DecodeRaw(line).second < 60
    ensures ProcessRecordStrict(line, date).Done? ==> ProcessRecordStrict(line, date).value == ProcessRecord(line, date, fallback)
  {
    if WellFormedRecord(line) {
      DecodeRawDigits(line);
    }
  }

  /** Decoder state: the fixes so far and the date in force. */
  datatype StrictReader = StrictReader(trace: seq<Fix>, date: Date)

  function StepStrict(st: StrictReader, line: string): Outcome<StrictReader> {
    if IsRecord(line) then
      match ProcessRecordStrict(line, st.date)
      case Panic(m) => Panic(m)
      case Done(f) => Done(st.(trace := st.trace + [f]))
    else if IsHeader(line) then
      if !TagSliceOk(line) then Panic("byte index 5 is out of bounds or not a char boundary")
      else if IsDateTag(line) then
        match ProcessDateStrict(line)
        case Panic(m) => Panic(m)
        case Done(d) => Done(st.(date := d))
      else Done(st)
    else
      Done(st)
  }

  function ReadStrictLines(lines: seq<string>): Outcome<StrictReader>
    decreases |lines|
  {
    if lines == [] then Done(StrictReader([], INITIAL_DATE))
    else
      match ReadStrictLines(lines[..|lines| - 1])
      case Panic(m) => Panic(m)
      case Done(st) => StepStrict(st, lines[|lines| - 1])
  }

  /** `IgcReader::read` of the command-line tool. */
  function ReadStrict(text: string): Outcome<StrictReader> {
    ReadStrictLines(Lines(text))
  }

  /** Whenever the strict decoder gets through a file, the lenient decoder gets
      through it too and finds the same fixes and the same date. */
  lemma {:induction false} StrictReadAgrees(lines: seq<string>, fallback: DateTime)
    requires ReadStrictLines(lines).Done?
    ensures ReadLines(lines, fallback).Done?
    ensures ReadLines(lines, fallback).value.trace == ReadStrictLines(lines).value.trace
    ensures ReadLines(lines, fallback).value.date == ReadStrictLines(lines).value.date
    decreases |lines|
  {
    if lines != [] {
      var pre := lines[..|lines| - 1];
      var line := lines[|lines| - 1];
      StrictReadAgrees(pre, fallback);
      var st := ReadStrictLines(pre).value;
      if IsRecord(line) {
        StrictRecordAgrees(line, st.date, fallback);
      } else if IsHeader(line) && TagSliceOk(line) && IsDateTag(line) {
        StrictDateAgrees(line);
      }
    }
  }
}
