/** Character-level helpers: decimal digits and numbers, padding, line
    splitting, substring search, ASCII case folding and UTF-8 byte offsets.
    Text is a sequence of Unicode scalar values, as Rust's `chars()` yields it. */
module Text {
  import opened Common

  predicate IsDigit(c: char) {
    '0' <= c <= '9'
  }

  predicate AllDigits(s: string) {
    forall i :: 0 <= i < |s| ==> IsDigit(s[i])
  }

  /** `c.to_digit(10).unwrap_or(0)`. */
  function DigitOrZero(c: char): (d: nat)
    ensures d <= 9
    ensures IsDigit(c) ==> d == c as int - '0' as int
    ensures !IsDigit(c) ==> d == 0
  {
    if IsDigit(c) then c as int - '0' as int else 0
  }

  /** `it.next().unwrap_or(dflt)` on the i-th character of `s`. */
  function CharAtOr(s: string, i: nat, dflt: char): (c: char)
    ensures i < |s| ==> c == s[i]
    ensures |s| <= i ==> c == dflt
  {
    if i < |s| then s[i] else dflt
  }

  /** `it.next().unwrap_or('0').to_digit(10).unwrap_or(0)` on the i-th character:
      a missing or non-digit character reads as 0. */
  function DigitAt(s: string, i: nat): (d: nat)
    ensures d <= 9
    ensures i < |s| && IsDigit(s[i]) ==> d == s[i] as int - '0' as int
    ensures i >= |s| || !IsDigit(s[i]) ==> d == 0
  {
    DigitOrZero(CharAtOr(s, i, '0'))
  }

  function DigitChar(d: nat): (c: char)
    requires d <= 9
    ensures IsDigit(c) && DigitOrZero(c) == d
  {
    ('0' as int + d) as char
  }

  /** Decimal rendering of a natural number, as `format!("{}", n)` and JavaScript's
      number-to-string conversion produce it for integers. */
  function NatStr(n: nat): (s: string)
    decreases n
  {
    if n < 10 then [DigitChar(n)] else NatStr(n / 10) + [DigitChar(n % 10)]
  }

  /** Decimal rendering of a signed integer (`format!("{}", i)`). */
  function IntStr(i: int): string {
    if i < 0 then "-" + NatStr(-i) else NatStr(i)
  }

  /** The value of a string of decimal digits, read left to right. */
  function ParseNat(s: string): nat
    decreases |s|
  {
    if s == [] then 0 else 10 * ParseNat(s[..|s| - 1]) + DigitOrZero(s[|s| - 1])
  }

  /** Reading back a rendered number gives the number: the two functions above are
      inverse on naturals, and the rendering is a non-empty digit string. */
  lemma {:induction false} ParseNatStr(n: nat)
    ensures |NatStr(n)| >= 1
    ensures AllDigits(NatStr(n))
    ensures ParseNat(NatStr(n)) == n
    decreases n
  {
    if n >= 10 {
      ParseNatStr(n / 10);
      var s := NatStr(n);
      assert s[..|s| - 1] == NatStr(n / 10);
    }
  }

  /** `NatStr(n)` has at most two characters when `n < 100`. */
  lemma NatStrSmall(n: nat)
    requires n < 100
    ensures |NatStr(n)| == (if n < 10 then 1 else 2)
  {
  }

  /** `s.padEnd(width, fill)` (JavaScript), for a fill string of one character. */
  function PadEnd(s: string, width: nat, fill: char): (r: string)
    ensures |r| == if |s| < width then width else |s|
    ensures r[..|s|] == s
    ensures forall i :: |s| <= i < |r| ==> r[i] == fill
    decreases width - |s|
  {
    if |s| < width then PadEnd(s + [fill], width, fill) else s
  }

  /** The string repeated `n` times of the single character `c`. */
  function Repeat(c: char, n: nat): (r: string)
    ensures |r| == n
    ensures forall i :: 0 <= i < n ==> r[i] == c
  {
    if n == 0 then [] else [c] + Repeat(c, n - 1)
  }

  /** Padding only ever appends fill characters: the padded text is the text plus
      exactly the missing number of fill characters. */
  lemma PadEndIsAppend(s: string, width: nat, fill: char)
    ensures PadEnd(s, width, fill) == s + Repeat(fill, if |s| < width then width - |s| else 0)
  {
    var r := PadEnd(s, width, fill);
    var t := s + Repeat(fill, if |s| < width then width - |s| else 0);
    assert |r| == |t|;
    forall i | 0 <= i < |r| ensures r[i] == t[i] {
      if i < |s| {
        assert r[i] == r[..|s|][i];
      }
    }
  }

  // ---------------------------------------------------------------------------
  // Lines

  /** Index of the first occurrence of `c` in `s`, if any. */
  function IndexOf(s: string, c: char): (r: nat)
    ensures r <= |s|
    ensures r < |s| ==> s[r] == c
    ensures forall i :: 0 <= i < r ==> s[i] != c
  {
    if s == [] then 0 else if s[0] == c then 0 else 1 + IndexOf(s[1..], c)
  }

  /** A line terminated by `\n` loses one trailing `\r`. */
  function StripCr(line: string): string {
    if |line| > 0 && line[|line| - 1] == '\r' then line[..|line| - 1] else line
  }

  /** `str::lines()`: split at `\n`, drop a `\r` right before each `\n`, and do
      not produce an empty last line after a final `\n`. */
  function Lines(text: string): (ls: seq<string>)
    ensures forall k :: 0 <= k < |ls| ==> '\n' !in ls[k]
    decreases |text|
  {
    if text == [] then []
    else
      var i := IndexOf(text, '\n');
      if i == |text| then [text]
      else [StripCr(text[..i])] + Lines(text[i + 1..])
  }

  /** Joins pieces, each followed by the terminator `sep`. */
  function Terminated(ps: seq<string>, sep: char): string {
    if ps == [] then [] else ps[0] + [sep] + Terminated(ps[1..], sep)
  }

  predicate PlainLine(l: string) {
    '\n' !in l && (|l| == 0 || l[|l| - 1] != '\r')
  }

  /** Splitting a text written line by line gives back its lines. */
  lemma {:induction false} LinesUnlines(ls: seq<string>)
    requires forall k :: 0 <= k < |ls| ==> PlainLine(ls[k])
    ensures Lines(Terminated(ls, '\n')) == ls
  {
    if ls != [] {
      var text := Terminated(ls, '\n');
      var l := ls[0];
      assert text == l + (['\n'] + Terminated(ls[1..], '\n'));
      IndexOfPrefix(l, '\n', ['\n'] + Terminated(ls[1..], '\n'));
      assert IndexOf(text, '\n') == |l|;
      assert text[..|l|] == l;
      assert text[|l| + 1..] == Terminated(ls[1..], '\n');
      LinesUnlines(ls[1..]);
    }
  }

  lemma {:induction false} IndexOfPrefix(l: string, c: char, rest: string)
    requires c !in l
    requires |rest| > 0 && rest[0] == c
    ensures IndexOf(l + rest, c) == |l|
    decreases |l|
  {
    if l != [] {
      assert (l + rest)[1..] == l[1..] + rest;
      IndexOfPrefix(l[1..], c, rest);
    } else {
      assert l + rest == rest;
    }
  }

  /** Splits at every `sep`; a final `sep` ends the last piece rather than
      starting an empty one. */
  function SplitOn(s: string, sep: char): (ps: seq<string>)
    ensures forall k :: 0 <= k < |ps| ==> sep !in ps[k]
    decreases |s|
  {
    if s == [] then []
    else
      var i := IndexOf(s, sep);
      if i == |s| then [s]
      else [s[..i]] + SplitOn(s[i + 1..], sep)
  }

  /** Splitting a terminated list at its terminator gives back the pieces. */
  lemma {:induction false} SplitTerminated(ps: seq<string>, sep: char)
    requires forall k :: 0 <= k < |ps| ==> sep !in ps[k]
    ensures SplitOn(Terminated(ps, sep), sep) == ps
  {
    if ps != [] {
      var s := Terminated(ps, sep);
      var p := ps[0];
      assert s == p + ([sep] + Terminated(ps[1..], sep));
      IndexOfPrefix(p, sep, [sep] + Terminated(ps[1..], sep));
      assert s[..|p|] == p;
      assert s[|p| + 1..] == Terminated(ps[1..], sep);
      SplitTerminated(ps[1..], sep);
    }
  }

  /** A terminated list holds no `c` other than the terminator when its pieces
      hold none. */
  lemma {:induction false} TerminatedAvoids(ps: seq<string>, sep: char, c: char)
    requires c != sep
    requires forall k :: 0 <= k < |ps| ==> c !in ps[k]
    ensures c !in Terminated(ps, sep)
  {
    if ps != [] {
      TerminatedAvoids(ps[1..], sep, c);
    }
  }

  // ---------------------------------------------------------------------------
  // Substrings and case

  /** `needle` occurs in `hay` at position `i`. */
  predicate OccursAt(hay: string, needle: string, i: nat) {
    i + |needle| <= |hay| && hay[i..i + |needle|] == needle
  }

  /** `hay.contains(needle)`. */
  function Contains(hay: string, needle: string): (b: bool)
    ensures b <==> exists i :: 0 <= i <= |hay| && OccursAt(hay, needle, i)
    decreases |hay|
  {
    if OccursAt(hay, needle, 0) then true
    else if hay == [] then false
    else
      var b := Contains(hay[1..], needle);
      if b then
        var i :| 0 <= i <= |hay[1..]| && OccursAt(hay[1..], needle, i);
        assert OccursAt(hay, needle, i + 1);
        true
      else
        assert forall i :: 1 <= i <= |hay| && OccursAt(hay, needle, i) ==> OccursAt(hay[1..], needle, i - 1);
        false
  }

  function LowerChar(c: char): char {
    if 'A' <= c <= 'Z' then (c as int + 32) as char else c
  }

  /** `to_lowercase()` restricted to ASCII letters. */
  function Lower(s: string): (r: string)
    ensures |r| == |s|
    ensures forall i :: 0 <= i < |s| ==> r[i] == LowerChar(s[i])
  {
    seq(|s|, i requires 0 <= i < |s| => LowerChar(s[i]))
  }

  // ---------------------------------------------------------------------------
  // UTF-8 byte offsets, for Rust's byte-indexed string slicing

  /** Number of bytes of `c` in UTF-8. */
  function Utf8Len(c: char): (n: nat)
    ensures 1 <= n <= 4
    ensures n == 1 <==> c as int < 0x80
  {
    if c as int < 0x80 then 1
    else if c as int < 0x800 then 2
    else if c as int < 0x1_0000 then 3
    else 4
  }

  /** Byte offset `b` of the UTF-8 encoding of `s` exists and falls between two
      characters (Rust panics when slicing a `str` at any other offset). */
  predicate BoundaryAt(s: string, b: nat)
    decreases |s|
  {
    if b == 0 then true
    else if s == [] then false
    else Utf8Len(s[0]) <= b && BoundaryAt(s[1..], b - Utf8Len(s[0]))
  }

  /** For ASCII text, byte offsets and character positions coincide. */
  lemma {:induction false} BoundaryAtAscii(s: string, b: nat)
    requires forall i :: 0 <= i < |s| ==> s[i] as int < 0x80
    ensures BoundaryAt(s, b) <==> b <= |s|
    decreases |s|
  {
    if b != 0 && s != [] {
      BoundaryAtAscii(s[1..], b - 1);
    }
  }

  predicate IsAscii(s: string) {
    forall i :: 0 <= i < |s| ==> s[i] as int < 0x80
  }

  /** Length in bytes of the UTF-8 encoding of `s`. */
  function ByteLen(s: string): (n: nat)
    ensures n >= |s|
  {
    if s == [] then 0 else Utf8Len(s[0]) + ByteLen(s[1..])
  }

  /** The text after the first `b` bytes, if byte `b` is a character boundary. */
  function DropBytes(s: string, b: nat): (r: Option<string>)
    ensures r.Some? <==> BoundaryAt(s, b)
    ensures r.Some? ==> ByteLen(r.value) + b == ByteLen(s)
    decreases |s|
  {
    if b == 0 then Some(s)
    else if s == [] then None
    else if Utf8Len(s[0]) <= b then DropBytes(s[1..], b - Utf8Len(s[0]))
    else None
  }

  /** The first `b` bytes of `s`, if byte `b` is a character boundary. */
  function TakeBytes(s: string, b: nat): (r: Option<string>)
    ensures r.Some? <==> BoundaryAt(s, b)
    ensures r.Some? ==> ByteLen(r.value) == b
    decreases |s|
  {
    if b == 0 then Some([])
    else if s == [] then None
    else if Utf8Len(s[0]) <= b then
      match TakeBytes(s[1..], b - Utf8Len(s[0]))
      case Some(t) => Some([s[0]] + t)
      case None => None
    else None
  }

  /** `s.get(a..c)`: the characters between byte offsets `a` and `c`, or nothing
      when either offset is out of range or inside a character. */
  function ByteSlice(s: string, a: nat, c: nat): (r: Option<string>)
    requires a <= c
    ensures r.Some? ==> ByteLen(r.value) == c - a
  {
    match DropBytes(s, a)
    case None => None
    case Some(t) => TakeBytes(t, c - a)
  }

  /** On ASCII text, byte slicing is character slicing. */
  lemma {:induction false} DropBytesAscii(s: string, b: nat)
    requires IsAscii(s)
    ensures DropBytes(s, b) == if b <= |s| then Some(s[b..]) else None
    decreases |s|
  {
    if b != 0 && s != [] {
      DropBytesAscii(s[1..], b - 1);
      if b <= |s| {
        assert s[1..][b - 1..] == s[b..];
      }
    }
  }

  lemma {:induction false} TakeBytesAscii(s: string, b: nat)
    requires IsAscii(s)
    ensures TakeBytes(s, b) == if b <= |s| then Some(s[..b]) else None
    decreases |s|
  {
    if b != 0 && s != [] {
      TakeBytesAscii(s[1..], b - 1);
      if b <= |s| {
        assert [s[0]] + s[1..][..b - 1] == s[..b];
      }
    }
  }

  lemma ByteSliceAscii(s: string, a: nat, c: nat)
    requires IsAscii(s) && a <= c
    ensures ByteSlice(s, a, c) == if c <= |s| then Some(s[a..c]) else None
  {
    DropBytesAscii(s, a);
    if a <= |s| {
      TakeBytesAscii(s[a..], c - a);
      if c <= |s| {
        assert s[a..][..c - a] == s[a..c];
      }
    }
  }

  lemma {:induction false} ByteLenAscii(s: string)
    requires IsAscii(s)
    ensures ByteLen(s) == |s|
    decreases |s|
  {
    if s != [] {
      ByteLenAscii(s[1..]);
    }
  }
}
