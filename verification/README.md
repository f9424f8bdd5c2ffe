# Flight journal: the flight-trace core in Dafny

The flight journal is a paragliding logbook. It reads an IGC flight log, which is
a text file with one record per line. `B` lines are position fixes, `H` lines are
headers (the `HFDTE` header carries the date) and `G` lines are the security
record. From those fixes it finds where the flight took off and landed, reduces
the flight to a few fixes with Douglas–Peucker line simplification, and computes
the flight's duration and distance. The logbook then sums flights and picks the
longest ones, and it matches take-off and landing to known sites. The web front
end formats durations and distances for display.

This project models that core as pure Dafny functions. Two of the source's
loops stay loops, in the methods `Metrics.TotalDistance` and
`Logbook.Statistic`; the others (the readers, detection, search, site
detection) are recursive functions. The project proves what the code promises:

- **Decoders:**
  - the two lenient IGC readers, the trace manager and the desktop back end;
  - the strict reader, and how it relates to the lenient one;
  - the quick `extract_date` of the flight-data loader;
  - a byte-exact model of Rust's string slicing, so that a short or non-ASCII
    header line panics where the code panics.
- **Take-off and landing detection:**
  - the windowed speed scan;
  - the reversed scan for the landing;
  - when the scan panics;
  - why the landing comes after the take-off.
- **Simplification:**
  - Douglas–Peucker: the result keeps the two ends, is a sub-sequence of the
    input, and every dropped fix lies within the tolerance of the kept chord
    around it;
  - the depth-bounded `simplify`, and its size bound.
- **Metrics:**
  - path length and its cast to `u32`;
  - flight duration in whole minutes, wrapped to `u32`;
  - the scorer's distance multiplier.
- **The three `new` constructors** (trace manager, desktop, command line), as
  compositions of the above.
- **Logbook helpers:**
  - `Statistic`: sums with overflow, a stable descending sort, the three best
    flights;
  - `IDListe::to_string`;
  - site `search`;
  - `site_detection`.
- **Front-end formatters:** `format_duration` and `format_distance`, each with a
  parser that reads its output back.

Rust panics are modelled as `Outcome.Panic(reason)`. Where the code uses
unchecked arithmetic, the debug-build behaviour is modelled: an overflowing `u32`
sum and a `usize` underflow panic. Distances come from library calls that cannot
be seen here (`geoutils`), so they are parameters:

- `Geodesic`, which may fail, for Vincenty's `distance_to`;
- `Haversine` for `haversine_distance_to`.

Properties that depend on them are stated under named assumptions: `Symmetric`,
`ResolvesAlong` and `NonNegative`.

The modules follow the program's structure:

- `Common`: outcomes and integer casts;
- `Text`: characters, numbers, lines, and UTF-8 byte slicing;
- `Calendar`: chrono's dates;
- `Geo`: fixes and distances;
- `Igc`: the lenient reader;
- `IgcStrict`;
- `FlightDate`;
- `Detection`;
- `Simplify`;
- `Metrics`;
- `Pipeline`: the three constructors;
- `Profile`: the profile's CSV text;
- `Logbook`;
- `Sites`;
- `Format`.

Where the intended behaviour and the code differ, the model follows the code:

- **Detection that finds nothing.** A scan with no hit does not default to index
  0.
  - For 5 to 15 fixes, the 15-fix window always reads past the end and panics
    (`ShortTracePanics`).
  - For longer traces with no hit, the window eventually reads past the end
    and also panics (`DetectPanics`).
  - Only traces with fewer than 5 fixes get the whole range, take-off 0 and
    landing the last fix (`ShortBounds`).
- **No clamping.** The landing index is not clamped to the take-off.
  - The trace manager panics on slicing when take-off > landing (`SLICE_ORDER`).
  - The two `FlightTrack` constructors only saturate the landing at 0.
  - The ordering take-off + 15 ≤ landing is proved when the distance is
    symmetric and defined along the trace (`BoundsOrdered`). It is not proved
    for every input.
- **The landing fix is excluded.** The simplified trace is the flight from the
  take-off fix up to, but not including, the landing fix: the slice is
  half-open. So it ends on the fix before the landing (`NewTraceSucceeds`).

## Model

| member | source | states |
|---|---|---|
| Common.CastToU32 | src/flight_manager/flight_data/trace_manager.rs:125 | `as u32` on a float saturates: 0 for non-positive values, `u32::MAX` above the range, the integer part in between |
| Common.WrapToU32 | src/flight_manager/flight_data/trace_manager.rs:137 | `as u32` on a minute count keeps it modulo 2^32: the identity on the range, plus 2^32 for small negative values, congruent always |
| Common.CheckedSub | src-tauri/src/flight_track.rs:93 | a `usize` subtraction succeeds exactly when it does not underflow, and then adds back to the minuend |
| Common.SaturatingSub | src-tauri/src/flight_track.rs:93 | `saturating_sub` is the exact difference when there is no underflow and 0 otherwise |
| Calendar.FromYmd | src/flight_manager/flight_data/trace_manager.rs:347-352 | `from_ymd_opt` returns a date exactly when year, month and day form a real Gregorian date, and then that date |
| Calendar.AndHms | src/flight_manager/flight_data/trace_manager.rs:413-418 | a time of day exists exactly when h < 24, m < 60, s < 60, and is then 3600h + 60m + s seconds into that date |
| Calendar.TruncMinutes | src/flight_manager/flight_data/trace_manager.rs:137 | `num_minutes` truncates toward zero for both signs |
| Text.ParseNatStr | src-tauri/src/logbook.rs:82 | a number's decimal text is non-empty, all digits, and reads back as the number |
| Text.PadEndIsAppend | src/flight_list.js:134 | `padEnd` appends exactly enough fill characters to reach the width, and none to a text already that wide |
| Text.IndexOf | src/flight_manager/flight_data.rs:21 | `find` of a character gives its first position, or the length when it is absent |
| Text.Lines | src/flight_manager/flight_data/trace_manager.rs:39 | `str::lines` gives lines without line feeds |
| Text.LinesUnlines | src/flight_manager/flight_data/trace_manager.rs:39 | splitting newline-terminated lines that hold no line feed or trailing carriage return gives back exactly those lines |
| Text.SplitTerminated | src-tauri/src/flight_track.rs:57-76 | splitting text made of separator-terminated cells gives back exactly those cells |
| Text.Contains | src-tauri/src/logbook/site_table.rs:147 | `contains` is true exactly when the needle occurs at some position |
| Text.Lower | src-tauri/src/logbook/site_table.rs:147 | `to_lowercase` keeps the length and lowers each character |
| Text.DropBytes | src/flight_manager/flight_data/trace_manager.rs:51-52 | `line[n..]` succeeds exactly when byte n is a character boundary, and leaves the remaining bytes |
| Text.TakeBytes | src/flight_manager/flight_data.rs:31 | a byte prefix exists exactly at a character boundary and has that many bytes |
| Text.ByteSliceAscii | src/flight_manager/flight_data/trace_manager.rs:46 | on ASCII text, byte slicing is ordinary slicing, and fails only past the end |
| Igc.DecodeEncode | src/flight_manager/flight_data/trace_manager.rs:356-411 | decoding the `B` record written from any in-range field values gives back exactly those values |
| Igc.EncodeDecode | src/flight_manager/flight_data/trace_manager.rs:356-411 | on a well-formed `B` record, re-encoding the decoded fields rebuilds its first 35 characters |
| Igc.DecodeRaw | src/flight_manager/flight_data/trace_manager.rs:357-409 | every field read digit by digit, a missing digit counting as 0, stays within its field width |
| Igc.ToDecimal | src/flight_manager/flight_data/trace_manager.rs:322-331 | a coordinate is negative only for the `S` and `W` hemispheres; `Igc.ToDecimalInverse` pins its magnitude: its whole part is the degrees and 60 times its fraction is the minutes |
| Igc.MakeTime | src/flight_manager/flight_data/trace_manager.rs:413-418 | a fix's time is its date plus h:m:s when that time of day exists, else the fallback instant (year 0 here, the Unix epoch at src-tauri/src/flight_track/igc_reader.rs:137) |
| Igc.ProcessRecord | src/flight_manager/flight_data/trace_manager.rs:356-427 | both altitudes fit in five digits, whatever the line holds |
| Igc.SkipNonNumeric | src/flight_manager/flight_data/trace_manager.rs:336 | the scan stops on the first digit at or after its start, having passed over only non-digits |
| Igc.ProcessDate | src/flight_manager/flight_data/trace_manager.rs:333-354 | the header gives a date exactly when the six characters from its first digit form a valid day, month and year of the 2000s, and that date is DDMMYY read as 2000 + YY, each missing or non-digit character counting as 0 |
| Igc.ShortHeaderDate | src/flight_manager/flight_data/trace_manager.rs:338-344 | missing digits count as 0: a header cut after the month, `HFDTE1505`, is 15 May 2000 |
| Igc.ProcessDateOfHeader | src-tauri/src/flight_track/igc_reader.rs:46-67 | a header whose first digits are DDMMYY of a valid date is read as that date |
| Igc.TagSliceOkAscii | src/flight_manager/flight_data/trace_manager.rs:46 | on an ASCII header, the tag slice `line[1..5]` panics exactly when the line has fewer than 5 characters |
| Igc.Step | src/flight_manager/flight_data/trace_manager.rs:42-54 | one line panics the reader exactly when it is a header too short, or cut inside a character, for the tag slice |
| Igc.DateAfterIsLastValidHeader | src/flight_manager/flight_data/trace_manager.rs:47-49 | the date in force is that of the last header that parses to a date, and the initial date when none does |
| Igc.LastCheckIsLastG | src/flight_manager/flight_data/trace_manager.rs:51-52 | the security text is the tail of the last `G` line, and empty when there is none |
| Igc.ReadLinesSpec | src/flight_manager/flight_data/trace_manager.rs:37-54 | the reader panics exactly on a short header, and otherwise its trace has one fix per `B` line, in order, each decoded with the date in force at that line, plus the final date and security text (shared with src-tauri/src/flight_track/igc_reader.rs:18-44) |
| Igc.ReadLinesDated | src-tauri/src/flight_track/igc_reader.rs:18-44 | every fix the reader produces carries a real month, so durations between fixes are defined |
| IgcStrict.ProcessDateStrict | src/flight_manager/flight_data/igc_reader.rs:42-53 | the strict header decoder succeeds exactly when six digits follow the first digit position and form a valid date, and then gives the same date as the lenient one |
| IgcStrict.StrictRecordAgrees | src/flight_manager/flight_data/igc_reader.rs:55-109 | the strict `B` decoder succeeds exactly on a well-formed record with a valid time of day, and then agrees with the lenient decoder |
| IgcStrict.StrictReadAgrees | src/flight_manager/flight_data/igc_reader.rs:16-40 | whenever the strict reader succeeds, the lenient reader succeeds too, with the same fixes and date |
| FlightDate.Find | src/flight_manager/flight_data.rs:20 | `find` succeeds exactly when the tag occurs, and then gives its first occurrence |
| FlightDate.ExtractDate | src/flight_manager/flight_data.rs:18-34 | a result is ten bytes starting with "20"; every failure is an unwrap of a missing value; a log without `HFDTE` fails |
| FlightDate.ExtractDateNoLineEnd | src/flight_manager/flight_data.rs:21 | a date tag with no line feed after it aborts the loader |
| FlightDate.ExtractDateNoDigit | src/flight_manager/flight_data.rs:26-29 | a date line with no digit after the tag aborts the loader |
| FlightDate.ExtractDateAscii | src/flight_manager/flight_data.rs:18-34 | on ASCII text, the six characters from the first digit after the tag are rewritten as `20YY-MM-DD`, even when they run past the end of the line |
| FlightDate.ExtractDateAgrees | src/flight_manager/flight_data.rs:18-34 | on a header line with six date digits, the loader's string is the ISO form of the date the trace reader decodes from that line |
| FlightDate.DateFieldsDigits | src/flight_manager/flight_data/trace_manager.rs:336-345 | the day, month and year read from six digits print back as those digits |
| Detection.StepSumsSpec | src/flight_manager/flight_data/trace_manager.rs:85-91 | the window sums exist exactly when every step distance in the window resolves, and then add the altitude drops and the distances, the distance sum being non-negative for a non-negative distance |
| Detection.DetectSpec | src/flight_manager/flight_data/trace_manager.rs:73-105 | under 5 fixes the index is 0; otherwise it is k exactly when k is the first window that is fast enough or climbs or sinks fast enough, with every earlier window resolving and calm; a found window fits in the trace |
| Detection.DetectPanics | src/flight_manager/flight_data/trace_manager.rs:81-91 | with at least 5 fixes, detection panics exactly when there is no first hit |
| Detection.ShortTracePanics | src/flight_manager/flight_data/trace_manager.rs:81-87 | with 5 to 15 fixes, the window reads past the end and detection always panics |
| Detection.MirrorHit | src/flight_manager/flight_data/trace_manager.rs:57-60 | with a symmetric distance, a window of the reversed trace is a hit, or calm, exactly when the mirrored window of the trace is |
| Detection.TakeoffBeforeLanding | src/flight_manager/flight_data/trace_manager.rs:56-60 | when both scans succeed under a symmetric distance, the landing index lies at least a window after the take-off |
| Detection.LandingFound | src/flight_manager/flight_data/trace_manager.rs:56-60 | a take-off found along a trace where the distance resolves guarantees that the reversed scan finds a landing at least a window later |
| Simplify.LineDist2 | src/flight_manager/flight_data/trace_manager.rs:152-176 | the squared distance from a fix to the line through two others is non-negative |
| Simplify.ArgMax | src/flight_manager/flight_data/trace_manager.rs:189-200 | the scan returns the first fix of strictly largest distance to the chord, 0 with distance 0 when no fix is off it |
| Simplify.SplitInside | src/flight_manager/flight_data/trace_manager.rs:206-213 | a split point lies strictly inside the trace, so both halves are shorter |
| Simplify.DouglasPeuckerSize | src/flight_manager/flight_data/trace_manager.rs:178-220 | the result is no longer than the input and keeps at least two fixes of any input with two |
| Simplify.TwoEndsIffFlat | src/flight_manager/flight_data/trace_manager.rs:206-217 | the result is just the two ends exactly when every fix lies within epsilon of the chord |
| Simplify.ClosedLoopKeepsEnds | src/flight_manager/flight_data/trace_manager.rs:152-176 | a trace that returns to its start reduces to its two ends, the degenerate chord measuring no distance |
| Simplify.DouglasPeuckerEnds | src/flight_manager/flight_data/trace_manager.rs:178-220 | the result starts on the input's first fix and ends on its last |
| Simplify.DouglasPeuckerSelects | src/flight_manager/flight_data/trace_manager.rs:178-220 | the result picks increasing indices from first to last, and every dropped fix lies within epsilon of the line through the kept fixes around it (same algorithm at src/flight_manager/flight_data/flight_simplify.rs:186-231, src-tauri/src/flight_track.rs:233-275, src/flight_track.rs:183-225) |
| Simplify.JoinSelection | src/flight_manager/flight_data/flight_simplify.rs:218-228 | joining selections of the two halves split at a fix gives a selection of the whole |
| Simplify.JoinCovered | src/flight_manager/flight_data/flight_simplify.rs:218-228 | fixes dropped within tolerance in either half stay within tolerance in the joined result |
| Simplify.DetourArgMax | src/flight_manager/flight_data/flight_simplify.rs:23-37 | the scan gives the first fix of largest detour through it, and panics exactly when some detour cannot be measured |
| Simplify.SimplifyDepth | src/flight_manager/flight_data/flight_simplify.rs:12-56 | short lists come back unchanged, and every failure is an unwrap of a missing distance |
| Simplify.SimplifyDepthSelects | src/flight_manager/flight_data/flight_simplify.rs:12-56 | the depth-bounded simplification picks a sub-sequence from first to last fix, at most 2^(n+1) fixes long |
| Simplify.SimplifyDepthTotal | src/flight_manager/flight_data/flight_simplify.rs:12-56 | with a distance that always resolves, the simplification never panics |
| Metrics.PathLengthAppend | src/flight_manager/flight_data/trace_manager.rs:107-126 | the length of two joined paths is the sum of their lengths plus the joining step |
| Metrics.PathLengthNonNegative | src/flight_manager/flight_data/trace_manager.rs:113-123 | with a non-negative distance, path length is non-negative |
| Metrics.TotalDistance | src/flight_manager/flight_data/trace_manager.rs:107-126 | the loop computes the path length, an unmeasurable step counting 0, cast to `u32` (same loop at src-tauri/src/flight_track.rs:174-193 and src/flight_track.rs:124-143) |
| Metrics.ElapsedMinutes | src/flight_manager/flight_data/trace_manager.rs:134-137 | the elapsed whole minutes, truncated toward zero, then wrapped to `u32`, so a negative duration becomes a huge one |
| Metrics.FlightDuration | src/flight_manager/flight_data/trace_manager.rs:128-138 | a trace with fewer than two fixes lasts 0 minutes, and every duration fits a `u32` |
| Metrics.Multiplier | src/flight_track.rs:66-75 | the multiplier is between 1.0 and 1.4, and differs from 1.0 exactly for the triangle and FAI codes |
| Metrics.ScoreDistance | src/flight_track.rs:77-82 | the distance exists exactly when the scorer gave a number, and is a `u32` that is 0 for a non-positive score |
| Metrics.ScoreDistanceBounds | src/flight_track.rs:77-82 | the stored metres are the truncation of 1000 × score / multiplier, so never above 1000 × score |
| Pipeline.Scans | src/flight_manager/flight_data/trace_manager.rs:56-60 | both scans succeed exactly when detection succeeds on the trace and on its reverse |
| Pipeline.TraceBounds | src/flight_manager/flight_data/trace_manager.rs:56-60 | the trace manager's indices exist exactly when both scans succeed on a non-empty trace, and both lie inside it |
| Pipeline.TrackBounds | src-tauri/src/flight_track.rs:90-93 | the `FlightTrack` indices exist exactly when both scans succeed, and are inside a non-empty trace, (0, 0) for an empty one |
| Pipeline.BoundsAgree | src/flight_track.rs:53-56 | the trace manager's and the `FlightTrack` index computations agree on every non-empty trace; on an empty trace only the first panics |
| Pipeline.BoundsOrdered | src/flight_manager/flight_data/trace_manager.rs:56-68 | with a symmetric distance defined along a trace of at least 5 fixes that has a take-off, the landing index is at least a window after the take-off and inside the trace |
| Pipeline.NewTrace | src/flight_manager/flight_data/trace_manager.rs:36-71 | a built flight keeps the raw log, the decoded fixes, the date and the security text of the reader |
| Pipeline.NewTraceSimplified | src/flight_manager/flight_data/trace_manager.rs:56-68 | the simplified trace is a selection of the fixes from take-off to just before landing, every dropped fix within tolerance |
| Pipeline.NewTraceSucceeds | src/flight_manager/flight_data/trace_manager.rs:36-71 | a log with a take-off, along which the distance resolves, gives a flight whose simplified trace runs from the take-off fix to the fix before the landing fix |
| Pipeline.NewTraceEmpty | src/flight_manager/flight_data/trace_manager.rs:60 | a log without fixes panics on the landing index |
| Pipeline.DesktopPlan | src-tauri/src/flight_track.rs:86-97 | the desktop constructor gets past decoding and indexing exactly when the log decodes, both scans succeed and both indices are in order inside the trace |
| Pipeline.NewDesktopTrack | src-tauri/src/flight_track.rs:86-112 | the desktop flight is built exactly when the plan succeeds and the profile measures every step of the simplified flight; it takes its ends at the two indices, its duration from their times, its distance from the simplified flight, and its date and hash from the log; it panics with the plan's reason, or with the `Result` unwrap of the profile's distance |
| Pipeline.DesktopSucceeds | src-tauri/src/flight_track.rs:86-112 | with a symmetric distance that resolves between any two positions, and a take-off, the desktop constructor succeeds, including its profile, with the take-off at least a window before the landing |
| Pipeline.NewScoredTrack | src/flight_track.rs:34-88 | the command-line flight exists exactly when both scans succeed on a non-empty trace and the score is a number, and then takes its ends, duration and distance from them |
| Profile.ProfileSteps | src-tauri/src/flight_track.rs:114-138 | the profile's loop gets through exactly when the distance resolves from every fix of the simplified trace back to the one before it, and then measures those steps in order; otherwise it aborts with the `Result` unwrap (line 126) |
| Profile.Columns | src-tauri/src/flight_track.rs:55-65 | the profile has six columns, each with one cell per point |
| Profile.CsvRoundTrip | src-tauri/src/flight_track.rs:46-83 | reading the profile text back line by line and cell by cell gives exactly the six columns written |
| Profile.CsvNumbers | src-tauri/src/flight_track.rs:58-60 | the altitude and speed written for each point read back as those numbers |
| Logbook.SumsMonotone | src-tauri/src/logbook.rs:54-58 | partial sums of durations and distances never exceed the whole sums |
| Logbook.InsertSorted | src-tauri/src/logbook.rs:60 | inserting into a list sorted by decreasing distance keeps it sorted |
| Logbook.SortByDistanceSpec | src-tauri/src/logbook.rs:60 | the sort orders by decreasing distance, is a permutation, and keeps equal-distance flights in their original order (`sort_by` is stable) |
| Logbook.Statistic | src-tauri/src/logbook.rs:47-75 | the statistic succeeds exactly when no `u32` sum overflows; it gives the total duration, total distance, count, and the first three (or fewer) flights of the sorted list (same code at src/logbook.rs:44-72) |
| Logbook.BestCount | src-tauri/src/logbook.rs:62-66 | the number of best flights is 3, or every flight when there are fewer |
| Logbook.BestAreLongest | src-tauri/src/logbook.rs:60-71 | the best flights are sorted, together with the rest they are all flights, and none of the rest is longer |
| Logbook.IdListString | src-tauri/src/logbook.rs:77-91 | the list text always ends with `)` |
| Logbook.EmptyIdList | src-tauri/src/logbook.rs:86 | for an empty list the `pop` removes the opening parenthesis, leaving `)`, which is not a tuple |
| Logbook.IdTuple | src-tauri/src/logbook.rs:77-91 | the corrected text equals the source's for every non-empty list and is `()` for the empty one |
| Logbook.IdCellsPlain | src-tauri/src/logbook.rs:82 | each id's text has no comma and reads back as the id |
| Logbook.IdTupleRoundTrip | src-tauri/src/logbook.rs:77-91 | the corrected tuple text reads back as exactly the id list (same code at src/logbook.rs:74-88) |
| Sites.Search | src-tauri/src/logbook/site_table.rs:140-154 | search returns at most one id per site |
| Sites.SearchFinds | src-tauri/src/logbook/site_table.rs:145-151 | an id is found exactly when some site with that id has a name containing the query, both lower-cased |
| Sites.SearchIgnoresCase | src-tauri/src/logbook/site_table.rs:147 | lower-casing the query does not change the result |
| Sites.SearchEmpty | src-tauri/src/logbook/site_table.rs:140-154 | the empty query finds every site, in table order |
| Sites.LastNear | src-tauri/src/logbook/site_table.rs:165-179 | a site is found exactly when some site lies within 200 m, and then it is such a site |
| Sites.SiteDetectionSpec | src-tauri/src/logbook/site_table.rs:156-188 | the loop stops at the first site where both ends have been matched; each result is the last near site before that point |
| Sites.SiteDetectionFinds | src-tauri/src/logbook/site_table.rs:156-188 | a take-off (landing) site is found exactly when some site lies within 200 m of the take-off (landing), and the one found does |
| Sites.NoLandingSite | src-tauri/src/logbook/site_table.rs:176-185 | with no site near the landing, the loop never stops early: the take-off site is the last near one |
| Format.TrimPadded | src/flight_list.js:133 | removing the trailing fill undoes padding of a text that does not end in the fill character |
| Format.TwoDigits | src/flight_list.js:128-133 | the minutes are two digits that read back as the minute count |
| Format.FormatDuration | src/flight_list.js:120-136 | the formatted duration is at least 8 characters wide |
| Format.DurationRoundTrip | src/flight_list.js:120-136 | reading `[H]hMMmin` back, after trimming the padding, gives the minute count formatted (same function at src/tree.js:98-114 and src/main.js:105-121) |
| Format.KmDivisor | src/flight_list.js:140-148 | the divisor is 1000 times the scorer's multiplier: 1200 for `"tri"`, 1400 for `"fai"`, 1000 otherwise |
| Format.Tenths | src/flight_list.js:150 | `toFixed(1)` rounds the kilometres to the nearest tenth, ties upward |
| Format.FormatDistance | src/flight_list.js:138-152 | the formatted distance is at least 7 characters wide |
| Format.DistanceRoundTrip | src/flight_list.js:138-152 | reading `K.Dkm` back, after trimming the padding, gives the rounded tenths of a kilometre (same function at src/tree.js:116-131 and src/main.js:123-138) |
| Format.TenthsNearest | src/flight_list.js:150 | the displayed kilometres are within 0.05 of the exact quotient, and exactly 0.05 off only when rounded up |

## Left out

- Files, SQLite, the scorer subprocess and JSON. `select_all` rows become a
  parameter; the scorer's route code and score become parameters of
  `NewScoredTrack`.
- The command-line tool's `IgcReader`, in `src/flight_track/igc_reader.rs`, is
  not part of this model. `NewScoredTrack` takes an already decoded trace, date
  and security text.
- `flight_profile`: only its distance unwraps are modelled, by
  `Profile.ProfileSteps`. The points it builds are floating-point quotients of
  distance and altitude by time steps, and those are not modelled. `Profile`
  also models the profile's CSV text.
- `Pipeline.NewDesktopTrack`: its result leaves out the profile's points; it
  still panics where the profile's distance unwrap does. The file written by
  `_to_file` is not modelled either, so an I/O panic there is not modelled.
- Floating point: `f32`/`f64` rounding, NaN and infinities. Coordinates, speeds
  and distances are reals. A float's `Display` text is a parameter
  (`FloatDisplay`), assumed to be plain digits, sign and point.
- `geoutils` distances (Vincenty and haversine) are parameters. Properties that
  need them say which assumption they use.
- `Text.Lower`: only ASCII letters are lowered, not full Unicode
  `to_lowercase`.
- `Text.IsDigit`: only ASCII `0`-`9` count, where Rust's `is_numeric` accepts
  every Unicode numeric character.
- `triangle`, `_simplify`, `compute_epsilon` and `distance_between` are outside
  the flight-trace core and are not modelled. Neither are zstd compression, the
  UI, `_to_file` and the `println!` in the desktop `new`.
- `Simplify.DouglasPeucker`: requires a non-negative epsilon. With a negative
  one the source recurses without end on any three fixes.
- `Simplify.LineDist2`: a zero-length chord measures 0 where the source divides
  by zero and gets NaN. Every comparison with NaN is false in the source, so the
  kept fixes are the same.
- `Format.Tenths`: models `toFixed(1)` on the exact quotient of a whole-number
  score. JavaScript first rounds the quotient to a double, which can move a tie.
- `Format.FormatDuration`: models whole, non-negative minute counts only.
- `Logbook.Statistic`: a flight is reduced to its id, duration and distance.
  Overflow is modelled as the debug-build panic; a release build would wrap.
- `Metrics.ElapsedMinutes`: models chrono's `num_minutes` on whole seconds.
  Leap seconds are not modelled.
- `Pipeline.NewScoredTrack`: requires every fix to carry a real calendar month.
  Chrono dates always do.
- `Pipeline.DesktopSucceeds`: states success and order under a symmetric
  distance that resolves between any two positions. Neighbours in the
  simplified trace need not be neighbours in the log, so a distance that
  resolves only along the log is not enough. The lemma does not say when a
  trace with no take-off makes the scan panic; `Detection.DetectPanics` does.

## Findings

| source | as written | input that shows it | evidently intended | confidence | as-written member | corrected member |
|---|---|---|---|---|---|---|
| src-tauri/src/logbook.rs:77-91 (also src/logbook.rs:74-88) | `pop` removes the last character to drop the trailing comma, but with no ids it removes the opening `(` and the text is `)` | the empty id list | `()`, an empty SQL tuple | not executed | Logbook.EmptyIdList | Logbook.IdTuple |
