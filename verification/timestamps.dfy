/** The datetime handling that content_manager.py relies on: UTC datetimes as field tuples,
    the `>` that compares them, `strftime("%Y-%m-%dT%H:%M:%S.%f")` and the subset of
    `datetime.fromisoformat` that reads the strings this program writes. */
module Timestamps {
  import opened Wrappers

  /** An aware UTC datetime. Every value the program builds carries tzinfo=UTC, so the zone is
      left implicit. */
  datatype DateTime = DateTime(
    year: int, month: int, day: int,
    hour: int, minute: int, second: int, microsecond: int)

  predicate IsLeapYear(y: int) {
    y % 4 == 0 && (y % 100 != 0 || y % 400 == 0)
  }

  function DaysInMonth(y: int, m: int): (n: int)
    requires 1 <= m <= 12
    ensures 28 <= n <= 31
    ensures m == 2 ==> (n == 29 <==> IsLeapYear(y))
  {
    if m == 2 then (if IsLeapYear(y) then 29 else 28)
    else if m == 4 || m == 6 || m == 9 || m == 11 then 30
    else 31
  }

  /** The values `datetime` accepts: years 1..9999 and every field within its calendar range. */
  predicate Valid(t: DateTime) {
    && 1 <= t.year <= 9999
    && 1 <= t.month <= 12
    && 1 <= t.day <= DaysInMonth(t.year, t.month)
    && 0 <= t.hour < 24
    && 0 <= t.minute < 60
    && 0 <= t.second < 60
    && 0 <= t.microsecond < 1000000
  }

  /** `a < b` on two aware datetimes: the earlier instant. On UTC field tuples that is the
      lexicographic order of the fields. */
  predicate Before(a: DateTime, b: DateTime) {
    if a.year != b.year then a.year < b.year
    else if a.month != b.month then a.month < b.month
    else if a.day != b.day then a.day < b.day
    else if a.hour != b.hour then a.hour < b.hour
    else if a.minute != b.minute then a.minute < b.minute
    else if a.second != b.second then a.second < b.second
    else a.microsecond < b.microsecond
  }

  /** A number that grows with the time: the fields in mixed radix, from the year down to the
      microsecond, with every month counted as 31 days. */
  function OrderKey(t: DateTime): int {
    ((((((t.year * 12 + (t.month - 1)) * 31 + (t.day - 1)) * 24 + t.hour) * 60 + t.minute) * 60 + t.second)
      * 1000000 + t.microsecond)
  }

  /** On valid times the field-by-field comparison is the comparison of instants: a time is
      earlier exactly when its key is smaller. */
  lemma BeforeIsKeyOrder(a: DateTime, b: DateTime)
    requires Valid(a) && Valid(b)
    ensures Before(a, b) <==> OrderKey(a) < OrderKey(b)
  {
  }

  /** `Before` is a strict total order, so "newer" in the reconciliation is well defined. */
  lemma BeforeIsStrictTotalOrder(a: DateTime, b: DateTime, c: DateTime)
    ensures !Before(a, a)
    ensures Before(a, b) ==> !Before(b, a)
    ensures Before(a, b) && Before(b, c) ==> Before(a, c)
    ensures a != b ==> Before(a, b) || Before(b, a)
  {
  }

  /** The same instant with the microseconds cut down to whole milliseconds. */
  function TruncateToMillis(t: DateTime): (r: DateTime)
    ensures Valid(t) ==> Valid(r)
    ensures r.microsecond % 1000 == 0
    ensures r == t <==> t.microsecond % 1000 == 0
    ensures !Before(t, r)
    ensures r.microsecond / 1000 == t.microsecond / 1000
  {
    t.(microsecond := t.microsecond / 1000 * 1000)
  }

  predicate HasMillisecondPrecision(t: DateTime) {
    t.microsecond % 1000 == 0
  }

  // ---------------------------------------------------------------------------------------
  // Decimal digits

  predicate IsDigit(c: char) {
    '0' <= c <= '9'
  }

  predicate AllDigits(s: string) {
    forall i :: 0 <= i < |s| ==> IsDigit(s[i])
  }

  function Pow10(w: nat): (p: nat)
    ensures p >= 1
  {
    if w == 0 then 1 else 10 * Pow10(w - 1)
  }

  function DigitChar(d: nat): (c: char)
    requires d < 10
    ensures IsDigit(c)
  {
    ('0' as int + d) as char
  }

  /** The last `width` decimal digits of `n`, zero-padded: what `%Y` (width 4), `%m`, `%d`,
      `%H`, `%M`, `%S` (width 2) and `%f` (width 6) print. */
  function Digits(n: nat, width: nat): (s: string)
    ensures |s| == width
    ensures AllDigits(s)
  {
    if width == 0 then [] else Digits(n / 10, width - 1) + [DigitChar(n % 10)]
  }

  /** The value of a string of decimal digits, as `int(...)` reads it. */
  function ParseDigits(s: string): nat
    requires AllDigits(s)
  {
    if s == [] then 0
    else ParseDigits(s[..|s| - 1]) * 10 + (s[|s| - 1] as int - '0' as int)
  }

  /** Printing a number in enough digits and reading it back gives the number. */
  lemma {:induction false} ParseDigitsOfDigits(n: nat, width: nat)
    requires n < Pow10(width)
    ensures ParseDigits(Digits(n, width)) == n
  {
    if width > 0 {
      var s := Digits(n, width);
      assert s[..|s| - 1] == Digits(n / 10, width - 1);
      ParseDigitsOfDigits(n / 10, width - 1);
    }
  }

  /** The first `width` of `width + 3` digits are the digits of n / 1000. */
  lemma DigitsDropThree(n: nat, width: nat)
    ensures Digits(n, width + 3)[..width] == Digits(n / 1000, width)
  {
    var d1 := Digits(n / 10, width + 2);
    var d2 := Digits(n / 10 / 10, width + 1);
    assert n / 10 / 10 / 10 == n / 1000;
    assert Digits(n, width + 3) == d1 + [DigitChar(n % 10)];
    assert d1 == d2 + [DigitChar(n / 10 % 10)];
    assert d2 == Digits(n / 1000, width) + [DigitChar(n / 10 / 10 % 10)];
  }

  // ---------------------------------------------------------------------------------------
  // Rendering and parsing

  /** `t.strftime("%Y-%m-%dT%H:%M:%S.%f")`: 26 characters, microseconds in six digits. */
  function StrfTime(t: DateTime): (s: string)
    requires Valid(t)
    ensures |s| == 26
  {
    Digits(t.year, 4) + "-" + Digits(t.month, 2) + "-" + Digits(t.day, 2) + "T"
    + Digits(t.hour, 2) + ":" + Digits(t.minute, 2) + ":" + Digits(t.second, 2) + "."
    + Digits(t.microsecond, 6)
  }

  /** The text of `s` with every trailing `c` removed: `s.rstrip(c)`. */
  function RStrip(s: string, c: char): (r: string)
    ensures r <= s
    ensures r == [] || r[|r| - 1] != c
    ensures forall i :: |r| <= i < |s| ==> s[i] == c
  {
    if s != [] && s[|s| - 1] == c then RStrip(s[..|s| - 1], c) else s
  }

  /** `datetime.fromisoformat(s)` for strings of the shape `YYYY-MM-DD?HH:MM:SS`, optionally
      followed by `.fff` or `.ffffff` (`?` is any one character). `None` stands for the
      ValueError raised on anything else and on fields out of calendar range. */
  function ParseIso(s: string): (r: Option<DateTime>)
    ensures r.Some? ==> Valid(r.value)
    ensures r.Some? ==> |s| in {19, 23, 26}
  {
    if |s| != 19 && |s| != 23 && |s| != 26 then None
    else if s[4] != '-' || s[7] != '-' || s[13] != ':' || s[16] != ':' then None
    else if |s| > 19 && s[19] != '.' then None
    else if !AllDigits(s[0..4]) || !AllDigits(s[5..7]) || !AllDigits(s[8..10]) then None
    else if !AllDigits(s[11..13]) || !AllDigits(s[14..16]) || !AllDigits(s[17..19]) then None
    else if |s| > 19 && !AllDigits(s[20..]) then None
    else
      var fraction :=
        if |s| == 19 then 0
        else if |s| == 23 then ParseDigits(s[20..]) * 1000
        else ParseDigits(s[20..]);
      var t := DateTime(
        ParseDigits(s[0..4]), ParseDigits(s[5..7]), ParseDigits(s[8..10]),
        ParseDigits(s[11..13]), ParseDigits(s[14..16]), ParseDigits(s[17..19]), fraction);
      if Valid(t) then Some(t) else None
  }

  /** The `update_time` text of a record: `strftime(...)[:-3] + "Z"`, which keeps the first
      three of the six fraction digits. */
  function FormatTime(t: DateTime): (s: string)
    requires Valid(t)
    ensures |s| == 24 && s[23] == 'Z'
  {
    var full := StrfTime(t);
    full[..|full| - 3] + "Z"
  }

  /** What `FormatTime` writes, field by field: the fraction is the whole milliseconds. */
  lemma FormatTimeFields(t: DateTime)
    requires Valid(t)
    ensures FormatTime(t) ==
      Digits(t.year, 4) + "-" + Digits(t.month, 2) + "-" + Digits(t.day, 2) + "T"
      + Digits(t.hour, 2) + ":" + Digits(t.minute, 2) + ":" + Digits(t.second, 2) + "."
      + Digits(t.microsecond / 1000, 3) + "Z"
  {
    var head := Digits(t.year, 4) + "-" + Digits(t.month, 2) + "-" + Digits(t.day, 2) + "T"
      + Digits(t.hour, 2) + ":" + Digits(t.minute, 2) + ":" + Digits(t.second, 2) + ".";
    assert |head| == 20;
    var full := StrfTime(t);
    assert full == head + Digits(t.microsecond, 6);
    DigitsDropThree(t.microsecond, 3);
    assert full[..23] == head + Digits(t.microsecond, 6)[..3];
  }

  /** A 23-character string laid out as `YYYY-MM-DD?HH:MM:SS.fff` parses to its fields, with
      the fraction read as milliseconds. */
  lemma ParseIsoMillisLayout(x: string)
    requires |x| == 23
    requires x[4] == '-' && x[7] == '-' && x[13] == ':' && x[16] == ':' && x[19] == '.'
    requires AllDigits(x[0..4]) && AllDigits(x[5..7]) && AllDigits(x[8..10])
    requires AllDigits(x[11..13]) && AllDigits(x[14..16]) && AllDigits(x[17..19])
    requires AllDigits(x[20..])
    ensures var t := DateTime(ParseDigits(x[0..4]), ParseDigits(x[5..7]), ParseDigits(x[8..10]),
                              ParseDigits(x[11..13]), ParseDigits(x[14..16]),
                              ParseDigits(x[17..19]), ParseDigits(x[20..]) * 1000);
            ParseIso(x) == if Valid(t) then Some(t) else None
  {
  }

  /** `FormatTime(t).rstrip("Z")` drops exactly the one `Z` it appended. */
  lemma RStripFormatTime(t: DateTime)
    requires Valid(t)
    ensures RStrip(FormatTime(t), 'Z') == FormatTime(t)[..23]
  {
    var s := FormatTime(t);
    var x := s[..23];
    assert s == x + "Z";
    assert x == StrfTime(t)[..23];
    assert IsDigit(x[22]);
  }

  /** Where each field sits in a `YYYY-MM-DD?HH:MM:SS.fff` layout built from its pieces. */
  lemma LayoutSlices(y: string, mo: string, d: string, h: string, mi: string, sec: string, f: string, sep: char)
    requires |y| == 4 && |mo| == 2 && |d| == 2 && |h| == 2 && |mi| == 2 && |sec| == 2 && |f| == 3
    ensures var x := y + "-" + mo + "-" + d + [sep] + h + ":" + mi + ":" + sec + "." + f;
      && |x| == 23
      && x[4] == '-' && x[7] == '-' && x[13] == ':' && x[16] == ':' && x[19] == '.'
      && x[0..4] == y && x[5..7] == mo && x[8..10] == d && x[11..13] == h
      && x[14..16] == mi && x[17..19] == sec && x[20..] == f
  {
    var p1 := y + "-";
    var p2 := p1 + mo + "-";
    var p3 := p2 + d + [sep];
    var p4 := p3 + h + ":";
    var p5 := p4 + mi + ":";
    var p6 := p5 + sec + ".";
    var x := p6 + f;
    assert x[..20] == p6 && x[..17] == p5 && x[..14] == p4;
    assert x[..11] == p3 && x[..8] == p2 && x[..5] == p1;
  }

  /** Where each field of the time sits in the first 23 characters that `FormatTime` writes. */
  lemma FormatTimeSlices(t: DateTime)
    requires Valid(t)
    ensures var x := FormatTime(t)[..23];
      && x[4] == '-' && x[7] == '-' && x[13] == ':' && x[16] == ':' && x[19] == '.'
      && x[0..4] == Digits(t.year, 4) && x[5..7] == Digits(t.month, 2)
      && x[8..10] == Digits(t.day, 2) && x[11..13] == Digits(t.hour, 2)
      && x[14..16] == Digits(t.minute, 2) && x[17..19] == Digits(t.second, 2)
      && x[20..] == Digits(t.microsecond / 1000, 3)
  {
    FormatTimeFields(t);
    var x := Digits(t.year, 4) + "-" + Digits(t.month, 2) + "-" + Digits(t.day, 2) + "T"
      + Digits(t.hour, 2) + ":" + Digits(t.minute, 2) + ":" + Digits(t.second, 2) + "."
      + Digits(t.microsecond / 1000, 3);
    LayoutSlices(Digits(t.year, 4), Digits(t.month, 2), Digits(t.day, 2), Digits(t.hour, 2),
                 Digits(t.minute, 2), Digits(t.second, 2), Digits(t.microsecond / 1000, 3), 'T');
    assert FormatTime(t) == x + "Z";
    assert FormatTime(t)[..23] == x;
  }

  /** `fromisoformat(FormatTime(t).rstrip("Z"))` gives back `t` truncated to milliseconds:
      the record file keeps every field of the time except the sub-millisecond digits. */
  lemma ParseFormatTime(t: DateTime)
    requires Valid(t)
    ensures ParseIso(RStrip(FormatTime(t), 'Z')) == Some(TruncateToMillis(t))
  {
    RStripFormatTime(t);
    FormatTimeSlices(t);
    ParseIsoMillisLayout(FormatTime(t)[..23]);
    assert Pow10(2) == 100 && Pow10(3) == 1000 && Pow10(4) == 10000;
    ParseDigitsOfDigits(t.year, 4);
    ParseDigitsOfDigits(t.month, 2);
    ParseDigitsOfDigits(t.day, 2);
    ParseDigitsOfDigits(t.hour, 2);
    ParseDigitsOfDigits(t.minute, 2);
    ParseDigitsOfDigits(t.second, 2);
    ParseDigitsOfDigits(t.microsecond / 1000, 3);
  }

  /** A three-digit fraction (or none) can only denote a whole number of milliseconds. */
  lemma ParsedMillisecondStringIsExact(s: string)
    requires ParseIso(s).Some?
    requires |s| != 26
    ensures HasMillisecondPrecision(ParseIso(s).value)
  {
  }
}
