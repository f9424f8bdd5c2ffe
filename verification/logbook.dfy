/** Logbook helpers shared by the desktop back end and the command-line tool:
    the statistics over a list of flights (`Statistic::statistic`) and the
    rendering of an id list as an SQL tuple (`IDListe::to_string`). */
module Logbook {
  import opened Common
  import opened Text

  /** A row of the `flights` table: the columns the helpers read, and the
      identifier. The other columns are carried along unchanged. */
  datatype Flight = Flight(flightId: nat, duration: nat, distance: nat)

  /** `FlightStatistic`. */
  datatype FlightStatistic = FlightStatistic(duration: nat, totDistance: nat, bestFlights: seq<Flight>, count: nat)

  const ADD_OVERFLOW: string := "attempt to add with overflow"

  /** The number of best flights reported. */
  const BEST_COUNT: nat := 3

  function SumDurations(fs: seq<Flight>): nat
    decreases |fs|
  {
    if fs == [] then 0 else SumDurations(fs[..|fs| - 1]) + fs[|fs| - 1].duration
  }

  function SumDistances(fs: seq<Flight>): nat
    decreases |fs|
  {
    if fs == [] then 0 else SumDistances(fs[..|fs| - 1]) + fs[|fs| - 1].distance
  }

  /** Sums over a prefix never exceed the sums over the whole list. */
  lemma {:induction false} SumsMonotone(fs: seq<Flight>, i: nat)
    requires i <= |fs|
    ensures SumDurations(fs[..i]) <= SumDurations(fs)
    ensures SumDistances(fs[..i]) <= SumDistances(fs)
    decreases |fs|
  {
    if i < |fs| {
      assert fs[..|fs| - 1][..i] == fs[..i];
      SumsMonotone(fs[..|fs| - 1], i);
    } else {
      assert fs[..i] == fs;
    }
  }

  // ---------------------------------------------------------------------------
  // The stable sort by decreasing distance (`sort_by` is a stable sort)

  predicate SortedDesc(fs: seq<Flight>) {
    forall i, j :: 0 <= i < j < |fs| ==> fs[i].distance >= fs[j].distance
  }

  /** Position before the first flight strictly shorter than `d`. */
  function InsertPoint(fs: seq<Flight>, d: nat): (k: nat)
    ensures k <= |fs|
    ensures forall i :: 0 <= i < k ==> fs[i].distance >= d
    ensures k < |fs| ==> fs[k].distance < d
  {
    if fs == [] || fs[0].distance < d then 0 else 1 + InsertPoint(fs[1..], d)
  }

  /** Inserts `f` after every flight at least as long: after its equals. */
  function Insert(f: Flight, fs: seq<Flight>): (r: seq<Flight>)
    ensures |r| == |fs| + 1
  {
    var k := InsertPoint(fs, f.distance);
    fs[..k] + [f] + fs[k..]
  }

  /** `sort_by(|a, b| b.distance.cmp(&a.distance))`, as an insertion of each
      flight in list order. */
  function SortByDistance(fs: seq<Flight>): (r: seq<Flight>)
    ensures |r| == |fs|
    decreases |fs|
  {
    if fs == [] then [] else Insert(fs[|fs| - 1], SortByDistance(fs[..|fs| - 1]))
  }

  /** The flights of distance `d`, in list order. */
  function WithDistance(fs: seq<Flight>, d: nat): seq<Flight>
    decreases |fs|
  {
    if fs == [] then []
    else WithDistance(fs[..|fs| - 1], d) + (if fs[|fs| - 1].distance == d then [fs[|fs| - 1]] else [])
  }

  lemma {:induction false} WithDistanceAppend(a: seq<Flight>, b: seq<Flight>, d: nat)
    ensures WithDistance(a + b, d) == WithDistance(a, d) + WithDistance(b, d)
    decreases |b|
  {
    if b == [] {
      assert a + b == a;
    } else {
      var b' := b[..|b| - 1];
      assert (a + b)[..|a + b| - 1] == a + b';
      WithDistanceAppend(a, b', d);
    }
  }

  /** No flight of `fs` has distance `d`. */
  lemma {:induction false} WithDistanceNone(fs: seq<Flight>, d: nat)
    requires forall i :: 0 <= i < |fs| ==> fs[i].distance != d
    ensures WithDistance(fs, d) == []
    decreases |fs|
  {
    if fs != [] {
      WithDistanceNone(fs[..|fs| - 1], d);
    }
  }

  lemma InsertSorted(f: Flight, fs: seq<Flight>)
    requires SortedDesc(fs)
    ensures SortedDesc(Insert(f, fs))
  {
    var k := InsertPoint(fs, f.distance);
    var r := Insert(f, fs);
    forall i, j | 0 <= i < j < |r| ensures r[i].distance >= r[j].distance {
      if j < k {
      } else if j == k {
        assert r[j] == f;
      } else if i < k {
        assert r[j] == fs[j - 1];
      } else if i == k {
        assert r[j] == fs[j - 1];
        assert fs[k].distance < f.distance;
      } else {
        assert r[i] == fs[i - 1] && r[j] == fs[j - 1];
      }
    }
  }

  lemma WithDistanceSingle(f: Flight, d: nat)
    ensures WithDistance([f], d) == if f.distance == d then [f] else []
  {
    assert [f][..0] == [];
  }

  /** After the insertion point of a sorted list, every flight is shorter. */
  lemma TailShorter(fs: seq<Flight>, d: nat)
    requires SortedDesc(fs)
    ensures WithDistance(fs[InsertPoint(fs, d)..], d) == []
  {
    var k := InsertPoint(fs, d);
    var b := fs[k..];
    forall i | 0 <= i < |b| ensures b[i].distance != d {
      assert b[i] == fs[k + i];
    }
    WithDistanceNone(b, d);
  }

  lemma SplitAt(fs: seq<Flight>, k: nat, f: Flight)
    requires k <= |fs|
    ensures fs[..k] + [f] + fs[k..] == fs[..k] + ([f] + fs[k..])
    ensures fs == fs[..k] + fs[k..]
  {
  }

  lemma InsertParts(f: Flight, fs: seq<Flight>)
    ensures var k := InsertPoint(fs, f.distance);
      && Insert(f, fs) == fs[..k] + ([f] + fs[k..])
      && fs == fs[..k] + fs[k..]
  {
    SplitAt(fs, InsertPoint(fs, f.distance), f);
  }

  /** Putting `f` between two lists keeps the flights of every distance in
      order, with `f` after its equals when none follows it. */
  lemma SpliceStable(a: seq<Flight>, f: Flight, b: seq<Flight>, d: nat)
    requires f.distance == d ==> WithDistance(b, d) == []
    ensures WithDistance(a + ([f] + b), d) == WithDistance(a + b, d) + (if f.distance == d then [f] else [])
  {
    WithDistanceAppend(a, [f] + b, d);
    WithDistanceAppend([f], b, d);
    WithDistanceAppend(a, b, d);
    WithDistanceSingle(f, d);
  }

  /** Insertion keeps the flights of every distance in order and puts `f` last
      among its equals. */
  lemma InsertStable(f: Flight, fs: seq<Flight>, d: nat)
    requires SortedDesc(fs)
    ensures WithDistance(Insert(f, fs), d) == WithDistance(fs, d) + (if f.distance == d then [f] else [])
  {
    var k := InsertPoint(fs, f.distance);
    InsertParts(f, fs);
    if f.distance == d {
      TailShorter(fs, d);
    }
    SpliceStable(fs[..k], f, fs[k..], d);
  }

  lemma {:induction false} SortByDistanceSorted(fs: seq<Flight>)
    ensures SortedDesc(SortByDistance(fs))
    decreases |fs|
  {
    if fs != [] {
      SortByDistanceSorted(fs[..|fs| - 1]);
      InsertSorted(fs[|fs| - 1], SortByDistance(fs[..|fs| - 1]));
    }
  }

  lemma InsertPerm(f: Flight, fs: seq<Flight>)
    ensures multiset(Insert(f, fs)) == multiset(fs) + multiset{f}
  {
    InsertParts(f, fs);
  }

  lemma {:induction false} SortByDistancePerm(fs: seq<Flight>)
    ensures multiset(SortByDistance(fs)) == multiset(fs)
    decreases |fs|
  {
    if fs != [] {
      var pre := fs[..|fs| - 1];
      SortByDistancePerm(pre);
      InsertPerm(fs[|fs| - 1], SortByDistance(pre));
      assert fs == pre + [fs[|fs| - 1]];
    }
  }

  lemma {:induction false} SortByDistanceStable(fs: seq<Flight>, d: nat)
    ensures WithDistance(SortByDistance(fs), d) == WithDistance(fs, d)
    decreases |fs|
  {
    if fs != [] {
      var pre := fs[..|fs| - 1];
      SortByDistanceSorted(pre);
      SortByDistanceStable(pre, d);
      InsertStable(fs[|fs| - 1], SortByDistance(pre), d);
    }
  }

  /** The sort orders by decreasing distance, and is stable: for every
      distance, the flights of that distance keep their list order. It
      therefore neither loses nor duplicates a flight. */
  lemma SortByDistanceSpec(fs: seq<Flight>)
    ensures SortedDesc(SortByDistance(fs))
    ensures forall d :: WithDistance(SortByDistance(fs), d) == WithDistance(fs, d)
    ensures multiset(SortByDistance(fs)) == multiset(fs)
  {
    SortByDistanceSorted(fs);
    SortByDistancePerm(fs);
    forall d ensures WithDistance(SortByDistance(fs), d) == WithDistance(fs, d) {
      SortByDistanceStable(fs, d);
    }
  }

  // ---------------------------------------------------------------------------
  // Statistics

  /** `Statistic::statistic`: total duration, total distance and number of
      flights, each a `u32` sum with the debug-build overflow check, and the
      (at most three) longest flights. */
  method Statistic(fs: seq<Flight>) returns (r: Outcome<FlightStatistic>)
    ensures r.Done? <==> SumDurations(fs) <= U32_MAX && SumDistances(fs) <= U32_MAX && |fs| <= U32_MAX
    ensures r.Panic? ==> r.reason == ADD_OVERFLOW
    ensures r.Done? ==> r.value.duration == SumDurations(fs) && r.value.totDistance == SumDistances(fs)
    ensures r.Done? ==> r.value.count == |fs|
    ensures r.Done? ==> r.value.bestFlights == SortByDistance(fs)[..BestCount(fs)]
  {
    var duration := 0;
    var totDistance := 0;
    var count := 0;
    var i := 0;
    while i < |fs|
      invariant 0 <= i <= |fs| && count == i
      invariant duration == SumDurations(fs[..i]) && totDistance == SumDistances(fs[..i])
      invariant duration <= U32_MAX && totDistance <= U32_MAX && count <= U32_MAX
    {
      assert fs[..i + 1][..i] == fs[..i];
      if duration + fs[i].duration > U32_MAX || totDistance + fs[i].distance > U32_MAX || count + 1 > U32_MAX {
        SumsMonotone(fs, i + 1);
        return Panic(ADD_OVERFLOW);
      }
      duration := duration + fs[i].duration;
      totDistance := totDistance + fs[i].distance;
      count := count + 1;
      i := i + 1;
    }
    assert fs[..i] == fs;
    var sorted := SortByDistance(fs);
    var index := if |sorted| > BEST_COUNT then BEST_COUNT else |sorted|;
    assert index == BestCount(fs);
    return Done(FlightStatistic(duration, totDistance, sorted[..index], count));
  }

  /** A list sorted by decreasing distance, cut anywhere: both parts together
      hold the list's flights, and no flight after the cut is longer than one
      before it. */
  lemma SortedCut(sorted: seq<Flight>, n: nat)
    requires SortedDesc(sorted) && n <= |sorted|
    ensures SortedDesc(sorted[..n])
    ensures multiset(sorted[..n]) + multiset(sorted[n..]) == multiset(sorted)
    ensures forall i, j :: 0 <= i < n <= j < |sorted| ==> sorted[j].distance <= sorted[i].distance
  {
    assert sorted == sorted[..n] + sorted[n..];
  }

  /** The number of best flights: three, or fewer if the list is shorter. */
  function BestCount(fs: seq<Flight>): (n: nat)
    ensures n <= |fs| && n <= BEST_COUNT
    ensures n == BEST_COUNT || n == |fs|
  {
    if |fs| > BEST_COUNT then BEST_COUNT else |fs|
  }

  /** The best flights are flights of the list, longest first, and no flight
      left out is longer than any of them. */
  lemma BestAreLongest(fs: seq<Flight>)
    ensures var sorted := SortByDistance(fs);
      && SortedDesc(sorted[..BestCount(fs)])
      && multiset(sorted[..BestCount(fs)]) + multiset(sorted[BestCount(fs)..]) == multiset(fs)
      && forall i, j :: 0 <= i < BestCount(fs) <= j < |fs| ==> sorted[j].distance <= sorted[i].distance
  {
    SortByDistanceSorted(fs);
    SortByDistancePerm(fs);
    SortedCut(SortByDistance(fs), BestCount(fs));
  }

  // ---------------------------------------------------------------------------
  // Id lists

  /** Each id in decimal. */
  function IdCells(ids: seq<nat>): (cells: seq<string>)
    ensures |cells| == |ids|
  {
    seq(|ids|, i requires 0 <= i < |ids| => NatStr(ids[i]))
  }

  /** `IDListe::to_string` as written: an opening parenthesis, each id followed
      by a comma, the last character removed, a closing parenthesis. With no id
      the character removed is the opening parenthesis itself. */
  function IdListString(ids: seq<nat>): (s: string)
    ensures |s| >= 1 && s[|s| - 1] == ')'
  {
    var open := "(" + Terminated(IdCells(ids), ',');
    open[..|open| - 1] + ")"
  }

  /** The rendering of the empty list is a lone closing parenthesis, which
      does not read back as any list. */
  lemma EmptyIdList()
    ensures IdListString([]) == ")"
    ensures ParseIdTuple(IdListString([])) == None
  {
    assert Terminated(IdCells([]), ',') == [];
  }

  /** The evidently intended rendering: `()` for the empty list, the same text
      otherwise. */
  function IdTuple(ids: seq<nat>): (s: string)
    ensures ids != [] ==> s == IdListString(ids)
    ensures ids == [] ==> s == "()"
  {
    if ids == [] then "()" else IdListString(ids)
  }

  /** Reads a tuple back: the text between the parentheses, split at commas,
      each piece read as a number. */
  function ParseIdTuple(s: string): Option<seq<nat>> {
    if |s| < 2 || s[0] != '(' || s[|s| - 1] != ')' then None
    else if |s| == 2 then Some([])
    else
      var cells := SplitOn(s[1..|s| - 1] + [','], ',');
      Some(seq(|cells|, i requires 0 <= i < |cells| => ParseNat(cells[i])))
  }

  lemma {:induction false} TerminatedEndsWith(ps: seq<string>, sep: char)
    requires ps != []
    ensures |Terminated(ps, sep)| >= 1 && Terminated(ps, sep)[|Terminated(ps, sep)| - 1] == sep
    decreases |ps|
  {
    if |ps| > 1 {
      TerminatedEndsWith(ps[1..], sep);
    }
  }

  /** Every cell is a digit string without commas that reads back as its id. */
  lemma IdCellsPlain(ids: seq<nat>)
    ensures forall i :: 0 <= i < |ids| ==> ',' !in IdCells(ids)[i] && |IdCells(ids)[i]| >= 1
    ensures forall i :: 0 <= i < |ids| ==> ParseNat(IdCells(ids)[i]) == ids[i]
  {
    var cells := IdCells(ids);
    forall i | 0 <= i < |ids| ensures ',' !in cells[i] && |cells[i]| >= 1 && ParseNat(cells[i]) == ids[i] {
      ParseNatStr(ids[i]);
      assert forall j :: 0 <= j < |cells[i]| ==> IsDigit(cells[i][j]);
    }
  }

  /** Between the parentheses of a non-empty list's text is its terminated cell
      list without the final comma. */
  lemma IdTupleInner(ids: seq<nat>)
    requires ids != []
    ensures var s := IdTuple(ids);
      |s| > 2 && s[0] == '(' && s[1..|s| - 1] + [','] == Terminated(IdCells(ids), ',')
  {
    var cells := IdCells(ids);
    var body := Terminated(cells, ',');
    TerminatedEndsWith(cells, ',');
    ParseNatStr(ids[0]);
    assert |body| >= |cells[0]| + 1 >= 2;
    var s := IdTuple(ids);
    assert s == "(" + body[..|body| - 1] + ")";
    assert s[1..|s| - 1] == body[..|body| - 1];
  }

  /** The tuple text of a list reads back as that list. */
  lemma IdTupleRoundTrip(ids: seq<nat>)
    ensures ParseIdTuple(IdTuple(ids)) == Some(ids)
  {
    if ids != [] {
      IdTupleInner(ids);
      IdCellsPlain(ids);
      SplitTerminated(IdCells(ids), ',');
      var cells := IdCells(ids);
      assert seq(|cells|, i requires 0 <= i < |cells| => ParseNat(cells[i])) == ids;
    }
  }
}
