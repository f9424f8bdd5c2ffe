/** The flight date shown by the command-line tool: the digits of the first
    `HFDTE` header rewritten from DDMMYY to `20YY-MM-DD`. The source works on
    UTF-8 byte offsets, so slicing is modelled byte-exactly. */
module FlightDate {
  import opened Common
  import opened Text
  import opened Calendar
  import opened Igc

  const DATE_TAG: string := "HFDTE"

  /** First position at or after `from` where `needle` occurs. */
  function FindFrom(hay: string, needle: string, from: nat): (r: Option<nat>)
    requires from <= |hay| + 1
    ensures r.Some? ==> from <= r.value <= |hay| && OccursAt(hay, needle, r.value)
    ensures r.Some? ==> forall i :: from <= i < r.value ==> !OccursAt(hay, needle, i)
    ensures r.None? ==> forall i :: from <= i <= |hay| ==> !OccursAt(hay, needle, i)
    decreases |hay| + 1 - from
  {
    if from > |hay| then None
    else if OccursAt(hay, needle, from) then Some(from)
    else FindFrom(hay, needle, from + 1)
  }

  /** `hay.find(needle)`, in character positions. */
  function Find(hay: string, needle: string): (r: Option<nat>)
    ensures r.Some? <==> exists i :: 0 <= i <= |hay| && OccursAt(hay, needle, i)
    ensures r.Some? ==> OccursAt(hay, needle, r.value)
    ensures r.Some? ==> forall i :: 0 <= i < r.value ==> !OccursAt(hay, needle, i)
  {
    FindFrom(hay, needle, 0)
  }

  /** `format!("20{}-{}-{}", yy, mm, dd)`. */
  function Iso(yy: string, mm: string, dd: string): string {
    "20" + yy + "-" + mm + "-" + dd
  }

  /** The `20YY-MM-DD` rendering of a date of the 2000s. */
  function IsoDate(d: Date): string
    requires 2000 <= d.year && 0 <= d.month && 0 <= d.day
  {
    Iso(Fixed(d.year - 2000, 2), Fixed(d.month, 2), Fixed(d.day, 2))
  }

  /** Byte offset of the date digits: the first numeric character of the line that
      follows the first date tag. Nothing when the tag, the line end or a digit is
      missing. The skip loop advances the byte offset by one per skipped
      character, whatever that character's encoded length. */
  function DigitsOffset(igc: string): Option<nat> {
    match Find(igc, DATE_TAG)
    case None => None
    case Some(p) =>
      var start := p + |DATE_TAG|;
      var n := IndexOf(igc[start..], '\n');
      if n == |igc| - start then None
      else
        var line := igc[start..start + n];
        var j := SkipNonNumeric(line, 0);
        if j == |line| then None
        else Some(ByteLen(igc[..start]) + j)
  }

  /** DDMMYY, six bytes, rewritten as `20YY-MM-DD`; nothing when a two-byte field
      does not fall on character boundaries. */
  function Reorder(ddmmyy: string): (r: Option<string>)
    ensures r.Some? ==> ByteLen(r.value) == 10 && |r.value| >= 2 && r.value[..2] == "20"
  {
    match (ByteSlice(ddmmyy, 4, 6), ByteSlice(ddmmyy, 2, 4), ByteSlice(ddmmyy, 0, 2))
    case (Some(yy), Some(mm), Some(dd)) =>
      var r := "20" + yy + "-" + mm + "-" + dd;
      ByteLenAppend("20" + yy + "-" + mm + "-", dd);
      ByteLenAppend("20" + yy + "-" + mm, "-");
      ByteLenAppend("20" + yy + "-", mm);
      ByteLenAppend("20" + yy, "-");
      ByteLenAppend("20", yy);
      assert r[..2] == "20";
      Some(r)
    case _ => None
  }

  /** The six characters from position `q` on, read as DDMMYY, written as `20YY-MM-DD`. */
  function Rewritten(s: string, q: nat): string
    requires q + 6 <= |s|
  {
    Iso(s[q + 4..q + 6], s[q + 2..q + 4], s[q..q + 2])
  }

  /** `FlightData::extract_date`. Every `unwrap` on a missing tag, a missing line
      end, a line without a digit or a byte range that does not exist aborts. */
  function ExtractDate(igc: string): (r: Outcome<string>)
    ensures r.Done? ==> ByteLen(r.value) == 10 && |r.value| >= 2 && r.value[..2] == "20"
    ensures r.Panic? ==> r.reason == UNWRAP_NONE
    ensures (forall i :: 0 <= i <= |igc| ==> !OccursAt(igc, DATE_TAG, i)) ==> r.Panic?
  {
    match DigitsOffset(igc)
    case None => Panic(UNWRAP_NONE)
    case Some(b) =>
      match ByteSlice(igc, b, b + 6)
      case None => Panic(UNWRAP_NONE)
      case Some(ddmmyy) =>
        match Reorder(ddmmyy)
        case None => Panic(UNWRAP_NONE)
        case Some(r) => Done(r)
  }

  lemma {:induction false} ByteLenAppend(a: string, b: string)
    ensures ByteLen(a + b) == ByteLen(a) + ByteLen(b)
    decreases |a|
  {
    if a != [] {
      assert (a + b)[1..] == a[1..] + b;
      ByteLenAppend(a[1..], b);
    } else {
      assert a + b == b;
    }
  }

  /** The line after the first date tag: everything up to the next line end. */
  predicate HeaderAt(igc: string, p: nat, e: nat) {
    && Find(igc, DATE_TAG) == Some(p)
    && p + |DATE_TAG| <= e < |igc|
    && igc[e] == '\n'
    && (forall i :: p + |DATE_TAG| <= i < e ==> igc[i] != '\n')
  }

  /** The line end after `start` is the first `\n` at or after it. */
  lemma LineEnd(igc: string, start: nat, e: nat)
    requires start <= e < |igc| && igc[e] == '\n'
    requires forall i :: start <= i < e ==> igc[i] != '\n'
    ensures IndexOf(igc[start..], '\n') == e - start
  {
    var t := igc[start..];
    assert t[e - start] == '\n';
    forall i | 0 <= i < e - start ensures t[i] != '\n' { assert t[i] == igc[start + i]; }
  }

  /** The first digit of the text between `start` and `e` is the one at `q`. */
  lemma LineFirstDigit(igc: string, start: nat, e: nat, q: nat)
    requires start <= q < e <= |igc| && IsDigit(igc[q])
    requires forall i :: start <= i < q ==> !IsDigit(igc[i])
    ensures SkipNonNumeric(igc[start..e], 0) == q - start
  {
    var line := igc[start..e];
    assert line[q - start] == igc[q];
    forall i | 0 <= i < q - start ensures !IsDigit(line[i]) { assert line[i] == igc[start + i]; }
    SkipPrefix(line, q - start, 0);
  }

  /** On ASCII text, the date digits start at the header line's first digit `q`. */
  lemma DigitsOffsetAscii(igc: string, p: nat, e: nat, q: nat)
    requires IsAscii(igc)
    requires HeaderAt(igc, p, e)
    requires p + |DATE_TAG| <= q < e && IsDigit(igc[q])
    requires forall i :: p + |DATE_TAG| <= i < q ==> !IsDigit(igc[i])
    ensures DigitsOffset(igc) == Some(q)
  {
    var start := p + |DATE_TAG|;
    LineEnd(igc, start, e);
    LineFirstDigit(igc, start, e, q);
    PrefixAscii(igc, start);
    DigitsOffsetSteps(igc, p, e, q - start);
  }

  /** The offset's three steps: the tag, the line end, the first digit. */
  lemma DigitsOffsetSteps(igc: string, p: nat, e: nat, j: nat)
    requires Find(igc, DATE_TAG) == Some(p)
    requires p + |DATE_TAG| + j < e < |igc|
    requires IndexOf(igc[p + |DATE_TAG|..], '\n') == e - (p + |DATE_TAG|)
    requires SkipNonNumeric(igc[p + |DATE_TAG|..e], 0) == j
    ensures DigitsOffset(igc) == Some(ByteLen(igc[..p + |DATE_TAG|]) + j)
  {
  }

  lemma PrefixAscii(s: string, n: nat)
    requires IsAscii(s) && n <= |s|
    ensures ByteLen(s[..n]) == n
  {
    assert IsAscii(s[..n]);
    ByteLenAscii(s[..n]);
  }

  lemma ReorderAscii(d: string)
    requires IsAscii(d) && |d| == 6
    ensures Reorder(d) == Some(Rewritten(d, 0))
  {
    ByteSliceAscii(d, 4, 6);
    ByteSliceAscii(d, 2, 4);
    ByteSliceAscii(d, 0, 2);
  }

  /** On ASCII text, a header line whose first digit `q` is followed by five more
      characters of text yields those six characters reordered. */
  lemma ExtractDateAscii(igc: string, p: nat, e: nat, q: nat)
    requires IsAscii(igc)
    requires HeaderAt(igc, p, e)
    requires p + |DATE_TAG| <= q < e && q + 6 <= |igc| && IsDigit(igc[q])
    requires forall i :: p + |DATE_TAG| <= i < q ==> !IsDigit(igc[i])
    ensures ExtractDate(igc) == Done(Rewritten(igc, q))
  {
    DigitsOffsetAscii(igc, p, e, q);
    ExtractDateAt(igc, q);
  }

  /** Without a line end after the first date tag, the decoder aborts. */
  lemma ExtractDateNoLineEnd(igc: string, p: nat)
    requires Find(igc, DATE_TAG) == Some(p)
    requires forall i :: p + |DATE_TAG| <= i < |igc| ==> igc[i] != '\n'
    ensures ExtractDate(igc) == Panic(UNWRAP_NONE)
  {
    var start := p + |DATE_TAG|;
    var t := igc[start..];
    forall i | 0 <= i < |t| ensures t[i] != '\n' { assert t[i] == igc[start + i]; }
    assert DigitsOffset(igc) == None;
  }

  /** A header line without a digit after the tag makes the decoder abort. */
  lemma ExtractDateNoDigit(igc: string, p: nat, e: nat)
    requires HeaderAt(igc, p, e)
    requires forall i :: p + |DATE_TAG| <= i < e ==> !IsDigit(igc[i])
    ensures ExtractDate(igc) == Panic(UNWRAP_NONE)
  {
    var start := p + |DATE_TAG|;
    LineEnd(igc, start, e);
    var line := igc[start..e];
    forall i | 0 <= i < |line| ensures !IsDigit(line[i]) { assert line[i] == igc[start + i]; }
    SkipNone(line, 0);
    assert DigitsOffset(igc) == None;
  }

  /** The decoder's three steps, once each has succeeded. */
  lemma ExtractDateSteps(igc: string, q: nat, d: string, r: string)
    requires DigitsOffset(igc) == Some(q)
    requires ByteSlice(igc, q, q + 6) == Some(d)
    requires Reorder(d) == Some(r)
    ensures ExtractDate(igc) == Done(r)
  {
  }

  lemma RewrittenSlice(s: string, q: nat)
    requires q + 6 <= |s|
    ensures Rewritten(s[q..q + 6], 0) == Rewritten(s, q)
  {
    SliceOfSlice(s, q, q + 6, 4, 6);
    SliceOfSlice(s, q, q + 6, 2, 4);
    SliceOfSlice(s, q, q + 6, 0, 2);
  }

  /** On ASCII text, once the date digits are located at `q`, the result is the six
      characters from `q` on, reordered. */
  lemma ExtractDateAt(igc: string, q: nat)
    requires IsAscii(igc) && q + 6 <= |igc|
    requires DigitsOffset(igc) == Some(q)
    ensures ExtractDate(igc) == Done(Rewritten(igc, q))
  {
    ByteSliceAscii(igc, q, q + 6);
    var d := igc[q..q + 6];
    assert IsAscii(d);
    ReorderAscii(d);
    RewrittenSlice(igc, q);
    ExtractDateSteps(igc, q, d, Rewritten(igc, q));
  }

  /** The importer's date of a header whose first digit `k` starts six digits,
      written as `20YY-MM-DD`, is those digits reordered. */
  lemma IsoDateFields(header: string, k: nat)
    requires k + 6 <= |header| && AllDigits(header[k..k + 6])
    requires SkipNonNumeric(header, 0) == k
    ensures 2000 <= DateFields(header).year
    ensures IsoDate(DateFields(header)) == Rewritten(header, k)
  {
    DateFieldsDigits(header, k);
  }

  /** Each two-digit field of the importer's date, written back, is the field. */
  lemma DateFieldsDigits(header: string, k: nat)
    requires k + 6 <= |header| && AllDigits(header[k..k + 6])
    requires SkipNonNumeric(header, 0) == k
    ensures 2000 <= DateFields(header).year
    ensures Fixed(DateFields(header).day, 2) == header[k..k + 2]
    ensures Fixed(DateFields(header).month, 2) == header[k + 2..k + 4]
    ensures Fixed(DateFields(header).year - 2000, 2) == header[k + 4..k + 6]
  {
    DateFieldsAt(header, k);
    FieldDigits(header, k, 0);
    FieldDigits(header, k, 2);
    FieldDigits(header, k, 4);
    assert header[k + 4..k + 4 + 2] == header[k + 4..k + 6];
  }

  lemma DateFieldsAt(header: string, k: nat)
    requires SkipNonNumeric(header, 0) == k
    ensures DateFields(header) == Date(2000 + Num(header, k + 4, 2), Num(header, k + 2, 2), Num(header, k, 2))
  {
  }

  /** The two-digit field at offset `a` of six digits, read and written back. */
  lemma FieldDigits(header: string, k: nat, a: nat)
    requires k + 6 <= |header| && AllDigits(header[k..k + 6]) && a <= 4
    ensures Fixed(Num(header, k + a, 2), 2) == header[k + a..k + a + 2]
  {
    AllDigitsSlice(header, k, k + 6, k + a, k + a + 2);
    FixedNum(header, k + a, 2);
  }

  /** The tag holds no digit, so the header line's first digit lies after it. */
  lemma FirstDigitAfterTag(igc: string, p: nat, e: nat)
    requires HeaderAt(igc, p, e)
    requires SkipNonNumeric(igc[p..e], 0) < e - p
    ensures var k := SkipNonNumeric(igc[p..e], 0);
      && |DATE_TAG| <= k && IsDigit(igc[p + k])
      && forall i :: p + |DATE_TAG| <= i < p + k ==> !IsDigit(igc[i])
  {
    var header := igc[p..e];
    var k := SkipNonNumeric(header, 0);
    assert header[..5] == DATE_TAG by { assert OccursAt(igc, DATE_TAG, p); }
    forall i | 0 <= i < 5 ensures !IsDigit(header[i]) { assert header[i] == header[..5][i]; }
    assert header[k] == igc[p + k];
    forall i | p + |DATE_TAG| <= i < p + k ensures !IsDigit(igc[i]) { assert igc[i] == header[i - p]; }
  }

  /** On ASCII text the date string is the one the importer reads from the same
      header line, written as `20YY-MM-DD`, whenever the six characters from the
      line's first digit on are digits of that line. */
  lemma ExtractDateAgrees(igc: string, p: nat, e: nat)
    requires IsAscii(igc)
    requires HeaderAt(igc, p, e)
    requires var k := SkipNonNumeric(igc[p..e], 0); k + 6 <= e - p && AllDigits(igc[p..e][k..k + 6])
    ensures 2000 <= DateFields(igc[p..e]).year
    ensures ExtractDate(igc) == Done(IsoDate(DateFields(igc[p..e])))
  {
    var header := igc[p..e];
    var k := SkipNonNumeric(header, 0);
    IsoDateFields(header, k);
    RewrittenShift(igc, p, e, k);
    FirstDigitAfterTag(igc, p, e);
    ExtractDateAscii(igc, p, e, p + k);
  }

  lemma RewrittenShift(s: string, p: nat, e: nat, k: nat)
    requires p <= e <= |s| && k + 6 <= e - p
    ensures Rewritten(s[p..e], k) == Rewritten(s, p + k)
  {
    SliceOfSlice(s, p, e, k + 4, k + 6);
    SliceOfSlice(s, p, e, k + 2, k + 4);
    SliceOfSlice(s, p, e, k, k + 2);
  }

  lemma SliceOfSlice(s: string, p: nat, e: nat, a: nat, b: nat)
    requires p <= e <= |s| && a <= b <= e - p
    ensures s[p..e][a..b] == s[p + a..p + b]
  {
    var t := s[p..e];
    forall i | 0 <= i < b - a ensures t[a..b][i] == s[p + a..p + b][i] {
      assert t[a..b][i] == t[a + i];
    }
  }

  lemma {:induction false} SkipNone(s: string, from: nat)
    requires from <= |s|
    requires forall i :: from <= i < |s| ==> !IsDigit(s[i])
    ensures SkipNonNumeric(s, from) == |s|
    decreases |s| - from
  {
    if from < |s| {
      SkipNone(s, from + 1);
    }
  }
}
