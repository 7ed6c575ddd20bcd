/**
 * The text helpers of the command-line crate's utils module: collapsing
 * whitespace runs in bookmark titles, and rendering a POSIX timestamp as a
 * UTC date and time.
 */
module Utils {
  import opened Wrappers
  import opened Strings
  import opened Numbers

  // ---------------------------------------------------------------------
  // Whitespace squeezing: the regex `[\s\n]+` replaced by one space.
  // ---------------------------------------------------------------------

  /**
   * Every maximal run of whitespace replaced by a single space; all other
   * characters kept in order.
   */
  function Squeeze(s: string): (r: string)
    ensures |r| <= |s|
    ensures (r == []) == (s == [])
    ensures r != [] ==> IsWhitespace(r[0]) == IsWhitespace(s[0])
    ensures r != [] ==> IsWhitespace(r[|r| - 1]) == IsWhitespace(s[|s| - 1])
    ensures r != [] && !IsWhitespace(s[|s| - 1]) ==> r[|r| - 1] == s[|s| - 1]
    decreases |s|
  {
    if s == [] then []
    else if IsWhitespace(s[0]) then
      [' '] + Squeeze(TrimStart(s))
    else [s[0]] + Squeeze(s[1..])
  }

  predicate NoAdjacentWhitespace(s: string) {
    forall i, j :: 0 <= i < |s| && 0 <= j < |s| && j == i + 1 ==> !(IsWhitespace(s[i]) && IsWhitespace(s[j]))
  }

  /** The only whitespace character in `s` is the plain space. */
  predicate OnlySpaces(s: string) {
    forall i :: 0 <= i < |s| && IsWhitespace(s[i]) ==> s[i] == ' '
  }

  /** The non-whitespace characters of `s`, in order. */
  function WithoutWhitespace(s: string): string
  {
    if s == [] then []
    else if IsWhitespace(s[0]) then WithoutWhitespace(s[1..])
    else [s[0]] + WithoutWhitespace(s[1..])
  }

  /** The result never holds two whitespace characters in a row, and its whitespace is spaces. */
  lemma {:induction false} SqueezeNoAdjacentWhitespace(s: string)
    ensures NoAdjacentWhitespace(Squeeze(s)) && OnlySpaces(Squeeze(s))
  {
    if s != [] {
      if IsWhitespace(s[0]) {
        var t := TrimStart(s);
        SqueezeNoAdjacentWhitespace(t);
        ConsKeepsSpacing(' ', Squeeze(t));
      } else {
        SqueezeNoAdjacentWhitespace(s[1..]);
        ConsKeepsSpacing(s[0], Squeeze(s[1..]));
      }
    }
  }

  /** A character in front keeps the spacing properties when it is not whitespace or comes before none. */
  lemma ConsKeepsSpacing(c: char, t: string)
    requires NoAdjacentWhitespace(t) && OnlySpaces(t)
    requires IsWhitespace(c) ==> c == ' ' && (t == [] || !IsWhitespace(t[0]))
    ensures NoAdjacentWhitespace([c] + t) && OnlySpaces([c] + t)
  {
    var r := [c] + t;
    forall i, j | 0 <= i < |r| && 0 <= j < |r| && j == i + 1 ensures !(IsWhitespace(r[i]) && IsWhitespace(r[j])) {
      if i > 0 { assert r[i] == t[i - 1] && r[j] == t[j - 1]; }
    }
    forall i | 0 <= i < |r| && IsWhitespace(r[i]) ensures r[i] == ' ' {
      if i > 0 { assert r[i] == t[i - 1]; }
    }
  }

  lemma {:induction false} WithoutWhitespaceAppend(a: string, b: string)
    ensures WithoutWhitespace(a + b) == WithoutWhitespace(a) + WithoutWhitespace(b)
  {
    if a != [] {
      assert (a + b)[0] == a[0] && (a + b)[1..] == a[1..] + b;
      WithoutWhitespaceAppend(a[1..], b);
    } else {
      assert a + b == b;
    }
  }

  lemma {:induction false} WithoutWhitespaceOfBlank(s: string)
    requires AllWhitespace(s)
    ensures WithoutWhitespace(s) == []
  {
    if s != [] {
      assert AllWhitespace(s[1..]) by {
        forall i | 0 <= i < |s[1..]| ensures IsWhitespace(s[1..][i]) { assert s[1..][i] == s[i + 1]; }
      }
      WithoutWhitespaceOfBlank(s[1..]);
    }
  }

  /** Squeezing keeps every non-whitespace character, in order. */
  lemma {:induction false} SqueezeKeepsText(s: string)
    ensures WithoutWhitespace(Squeeze(s)) == WithoutWhitespace(s)
  {
    if s != [] {
      if IsWhitespace(s[0]) {
        var t := TrimStart(s);
        var k := |s| - |t|;
        assert s == s[..k] + t;
        WithoutWhitespaceAppend(s[..k], t);
        WithoutWhitespaceOfBlank(s[..k]);
        SqueezeKeepsText(t);
        WithoutWhitespaceAppend([' '], Squeeze(t));
      } else {
        SqueezeKeepsText(s[1..]);
        WithoutWhitespaceAppend([s[0]], Squeeze(s[1..]));
      }
    }
  }

  /**
   * `s` is in squeezed form: each whitespace character is a space and is
   * not followed by another whitespace character.
   */
  predicate Squeezed(s: string)
    decreases |s|
  {
    s == [] ||
    ((IsWhitespace(s[0]) ==> s[0] == ' ' && (|s| == 1 || !IsWhitespace(s[1]))) && Squeezed(s[1..]))
  }

  /** Squeezing always produces squeezed form. */
  lemma {:induction false} SqueezeIsSqueezed(s: string)
    ensures Squeezed(Squeeze(s))
    decreases |s|
  {
    if s != [] {
      var r := Squeeze(s);
      if IsWhitespace(s[0]) {
        SqueezeIsSqueezed(TrimStart(s));
        assert r[1..] == Squeeze(TrimStart(s));
      } else {
        SqueezeIsSqueezed(s[1..]);
        assert r[1..] == Squeeze(s[1..]);
      }
    }
  }

  /** A single leading whitespace character is all that TrimStart removes. */
  lemma TrimStartSingle(s: string)
    requires s != [] && IsWhitespace(s[0]) && (|s| == 1 || !IsWhitespace(s[1]))
    ensures TrimStart(s) == s[1..]
  {
    assert TrimStart(s) == TrimStart(s[1..]);
    if |s| > 1 {
      assert s[1..][0] == s[1];
    }
  }

  /** A string in squeezed form comes back unchanged. */
  lemma {:induction false} SqueezeFixpoint(s: string)
    requires Squeezed(s)
    ensures Squeeze(s) == s
    decreases |s|
  {
    if s != [] {
      SqueezeFixpoint(s[1..]);
      if IsWhitespace(s[0]) {
        TrimStartSingle(s);
        assert s == [' '] + s[1..];
      } else {
        assert s == [s[0]] + s[1..];
      }
    }
  }

  /** Squeezing twice is squeezing once. */
  lemma SqueezeIdempotent(s: string)
    ensures Squeeze(Squeeze(s)) == Squeeze(s)
  {
    SqueezeIsSqueezed(s);
    SqueezeFixpoint(Squeeze(s));
  }

  /** Text without whitespace is in squeezed form. */
  lemma {:induction false} NoWhitespaceSqueezed(s: string)
    requires forall i :: 0 <= i < |s| ==> !IsWhitespace(s[i])
    ensures Squeezed(s)
    decreases |s|
  {
    if s != [] {
      NoWhitespaceSqueezed(s[1..]);
    }
  }

  /** Text without whitespace is left alone. */
  lemma SqueezeNoWhitespace(s: string)
    requires forall i :: 0 <= i < |s| ==> !IsWhitespace(s[i])
    ensures Squeeze(s) == s
  {
    NoWhitespaceSqueezed(s);
    SqueezeFixpoint(s);
  }

  /**
   * A leading or trailing whitespace run becomes one space rather than
   * disappearing, so callers trim first; squeezing trimmed text gives a
   * title with no whitespace at either end.
   */
  lemma SqueezeEnds(s: string)
    ensures s != [] && IsWhitespace(s[0]) ==> Squeeze(s)[0] == ' '
    ensures s != [] && IsWhitespace(s[|s| - 1]) ==> IsWhitespace(Squeeze(s)[|Squeeze(s)| - 1])
    ensures var r := Squeeze(Trim(s));
      r == [] || (!IsWhitespace(r[0]) && !IsWhitespace(r[|r| - 1]))
  {
  }

  // ---------------------------------------------------------------------
  // Timestamps as `%Y-%m-%d %H:%M:%S` in UTC (proleptic Gregorian).
  // ---------------------------------------------------------------------

  /**
   * The first and last second the date library can represent: the start of
   * 1 January -262144 and the end of 31 December 262143 (`TimestampRangeStart`,
   * `TimestampRangeEnd`). These are the bounds of chrono 0.4 releases whose
   * year range is `i32::MIN >> 13` to `i32::MAX >> 13`, the releases that
   * still offer `NaiveDateTime::from_timestamp`; the crate manifest that
   * pins the version is not part of this model.
   */
  const MinTimestamp: int := -8_334_632_851_200
  const MaxTimestamp: int := 8_210_298_412_799

  datatype DateTime = DateTime(year: int, month: int, day: int, hour: int, minute: int, second: int)

  /** Day of its 400-year era (counted from 1 March of a year divisible by 400) to year of the era. */
  function YearOfEra(doe: int): int {
    (doe - doe / 1460 + doe / 36524 - doe / 146096) / 365
  }

  /** Day of the era to day of the year (counted from 1 March). */
  function DayOfYear(doe: int): int {
    var yoe := YearOfEra(doe);
    doe - (365 * yoe + yoe / 4 - yoe / 100)
  }

  /** Days since 1970-01-01 to (year, month, day). */
  function CivilFromDays(days: int): (int, int, int)
  {
    var z := days + 719468;
    var era := z / 146097;
    CivilOfEra(era, z - era * 146097)
  }

  /** The date of day `doe` of 400-year era `era`. */
  function CivilOfEra(era: int, doe: int): (int, int, int)
  {
    var yoe := YearOfEra(doe);
    var doy := DayOfYear(doe);
    var mp := (5 * doy + 2) / 153;
    var d := doy - (153 * mp + 2) / 5 + 1;
    var m := if mp < 10 then mp + 3 else mp - 9;
    var y := yoe + era * 400;
    (if m <= 2 then y + 1 else y, m, d)
  }

  /** (year, month, day) to days since 1970-01-01: the inverse of CivilFromDays. */
  function DaysFromCivil(year: int, month: int, day: int): int
  {
    var y := if month <= 2 then year - 1 else year;
    var era := y / 400;
    var yoe := y - era * 400;
    var mp := if month > 2 then month - 3 else month + 9;
    var doy := (153 * mp + 2) / 5 + day - 1;
    var doe := yoe * 365 + yoe / 4 - yoe / 100 + doy;
    era * 146097 + doe - 719468
  }

  predicate IsLeapYear(y: int) {
    y % 4 == 0 && (y % 100 != 0 || y % 400 == 0)
  }

  function DaysInMonth(y: int, m: int): int
    requires 1 <= m <= 12
  {
    if m == 2 then (if IsLeapYear(y) then 29 else 28)
    else if m == 4 || m == 6 || m == 9 || m == 11 then 30
    else 31
  }

  /** The UTC calendar date and time of a timestamp (seconds since 1970-01-01 00:00:00). */
  function DateTimeOf(ts: int): DateTime
  {
    var days := ts / 86400;
    var sod := ts % 86400;
    var (y, m, d) := CivilFromDays(days);
    DateTime(y, m, d, sod / 3600, sod % 3600 / 60, sod % 60)
  }

  /** The timestamp of a calendar date and time. */
  function TimestampOf(dt: DateTime): int
  {
    DaysFromCivil(dt.year, dt.month, dt.day) * 86400 + dt.hour * 3600 + dt.minute * 60 + dt.second
  }

  lemma DecomposeDayOfEra(doe: int) returns (c: int, q: int, p: int, r: int)
    requires 0 <= doe <= 146096
    ensures doe == 36524 * c + 1461 * q + 365 * p + r
    ensures 0 <= c <= 4 && 0 <= q <= 24 && 0 <= p <= 4 && 0 <= r < 365
    ensures p == 4 ==> r == 0
    ensures c == 4 ==> q == 0 && p == 0 && r == 0
    ensures 1461 * q + 365 * p + r < 36524
  {
    c := doe / 36524;
    var r1 := doe % 36524;
    q := r1 / 1461;
    var r2 := r1 % 1461;
    p := r2 / 365;
    r := r2 % 365;
  }

  lemma DayOfEraQuotients(doe: int, c: int, q: int, p: int, r: int)
    requires doe == 36524 * c + 1461 * q + 365 * p + r
    requires 0 <= c <= 4 && 0 <= q <= 24 && 0 <= p <= 4 && 0 <= r < 365
    requires p == 4 ==> r == 0
    requires c == 4 ==> q == 0 && p == 0 && r == 0
    requires 1461 * q + 365 * p + r < 36524
    ensures doe / 1460 == 25 * c + q + (if 24 * c + q + 365 * p + r >= 1460 then 1 else 0)
    ensures doe / 36524 == c
    ensures doe / 146096 == (if c == 4 then 1 else 0)
  {
    var rem := 24 * c + q + 365 * p + r;
    assert doe == 1460 * (25 * c + q) + rem;
    assert 0 <= rem < 2920;
    assert doe == 36524 * c + (1461 * q + 365 * p + r);
  }

  /**
   * Within an era the year is 0..399 and the day of the year 0..365, and
   * day 365 (29 February) falls only in years followed by a leap year.
   */
  lemma {:induction false} DayOfEraBounds(doe: int)
    requires 0 <= doe <= 146096
    ensures 0 <= YearOfEra(doe) <= 399
    ensures 0 <= DayOfYear(doe) <= 365
    ensures DayOfYear(doe) == 365 ==>
      YearOfEra(doe) == 399 || ((YearOfEra(doe) + 1) % 4 == 0 && (YearOfEra(doe) + 1) % 100 != 0)
  {
    var c, q, p, r := DecomposeDayOfEra(doe);
    DayOfEraQuotients(doe, c, q, p, r);
    var big := if 24 * c + q + 365 * p + r >= 1460 then 1 else 0;
    var n := doe - doe / 1460 + doe / 36524 - doe / 146096;
    assert n == 365 * (100 * c + 4 * q + p) + r - big - (if c == 4 then 1 else 0);
    var yoe := YearOfEra(doe);
    assert yoe == n / 365;
    if c == 4 {
      DivModUnique(n, 365, 399, 364);
      assert yoe == 399;
    } else if big == 0 || r > 0 {
      DivModUnique(n, 365, 100 * c + 4 * q + p, r - big);
      assert yoe == 100 * c + 4 * q + p;
      YearStart(c, q, p);
      assert DayOfYear(doe) == r;
    } else {
      assert p == 4 && q <= 23;
      DivModUnique(n, 365, 100 * c + 4 * q + 3, 364);
      assert yoe == 100 * c + 4 * q + 3;
      YearStart(c, q, 3);
      assert DayOfYear(doe) == 365;
      DivModUnique(yoe + 1, 4, 25 * c + q + 1, 0);
      DivModUnique(yoe + 1, 100, c, 4 * q + 4);
    }
  }

  /** The first day of year `100 c + 4 q + p` of an era. */
  lemma YearStart(c: int, q: int, p: int)
    requires 0 <= c <= 3 && 0 <= q <= 24 && 0 <= p <= 3
    ensures var yoe := 100 * c + 4 * q + p;
      365 * yoe + yoe / 4 - yoe / 100 == 36524 * c + 1461 * q + 365 * p
  {
    var yoe := 100 * c + 4 * q + p;
    DivModUnique(yoe, 4, 25 * c + q, p);
    DivModUnique(yoe, 100, c, 4 * q + p);
  }

  /** Length of the month `mp` of a year counted from March (index 11 is February). */
  function MarchMonthLength(mp: int, leap: bool): int
  {
    if mp == 11 then (if leap then 29 else 28)
    else if mp == 1 || mp == 3 || mp == 6 || mp == 8 then 30
    else 31
  }

  /** Day of a March-based year to month index and day of month. */
  lemma MonthOfDay(doy: int)
    requires 0 <= doy <= 365
    ensures var mp := (5 * doy + 2) / 153;
      var d := doy - (153 * mp + 2) / 5 + 1;
      0 <= mp <= 11 && 1 <= d <= MarchMonthLength(mp, doy == 365) &&
      (153 * mp + 2) / 5 + d - 1 == doy
  {
    var mp := (5 * doy + 2) / 153;
    assert 153 * mp <= 5 * doy + 2 < 153 * mp + 153;
    assert 0 <= mp <= 11;
  }

  /** Adding whole 400-year eras does not change whether a year is a leap year. */
  lemma LeapEra(era: int, t: int)
    ensures IsLeapYear(400 * era + t) == IsLeapYear(t)
  {
    ModShift(t, 100 * era, 4);
    ModShift(t, 4 * era, 100);
    ModShift(t, era, 400);
  }

  /** Adding a multiple of the modulus keeps the remainder. */
  lemma ModShift(t: int, k: int, m: int)
    requires m > 0
    ensures (m * k + t) % m == t % m
  {
    var q := t / m;
    var r := t % m;
    assert t == m * q + r && 0 <= r < m;
    assert m * k + t == m * (k + q) + r;
    DivModUnique(m * k + t, m, k + q, r);
  }

  /** Quotient and remainder are the only ones with `x == m * q + r` and `0 <= r < m`. */
  lemma DivModUnique(x: int, m: int, q: int, r: int)
    requires m > 0 && x == m * q + r && 0 <= r < m
    ensures x / m == q && x % m == r
  {
    var q' := x / m;
    var r' := x % m;
    assert x == m * q' + r';
    if q' > q {
      assert m * q' >= m * (q + 1) by { MulMono(m, q + 1, q'); }
    } else if q' < q {
      assert m * q >= m * (q' + 1) by { MulMono(m, q' + 1, q); }
    }
  }

  lemma MulMono(m: int, a: int, b: int)
    requires m > 0 && a <= b
    ensures m * a <= m * b
  {
    assert m * b == m * a + m * (b - a);
  }

  /** The era split of a day count: a whole number of 146097-day eras plus a day of the era. */
  lemma EraSplit(days: int)
    ensures var z := days + 719468;
      var era := z / 146097;
      0 <= z - era * 146097 <= 146096
  {
  }

  /** Every timestamp names a valid calendar date and time of day. */
  lemma DateTimeValid(ts: int)
    ensures var dt := DateTimeOf(ts);
      1 <= dt.month <= 12 && 1 <= dt.day <= DaysInMonth(dt.year, dt.month) &&
      0 <= dt.hour < 24 && 0 <= dt.minute < 60 && 0 <= dt.second < 60
  {
    var days := ts / 86400;
    var z := days + 719468;
    var era := z / 146097;
    EraSplit(days);
    EraDateValid(era, z - era * 146097);
    TimeOfDay(ts % 86400);
  }

  /** Every day of an era is a valid calendar date. */
  lemma EraDateValid(era: int, doe: int)
    requires 0 <= doe <= 146096
    ensures var (y, m, d) := CivilOfEra(era, doe);
      1 <= m <= 12 && 1 <= d <= DaysInMonth(y, m)
  {
    DayOfEraBounds(doe);
    var yoe := YearOfEra(doe);
    var doy := DayOfYear(doe);
    MonthOfDay(doy);
    var mp := (5 * doy + 2) / 153;
    var d := doy - (153 * mp + 2) / 5 + 1;
    var m := if mp < 10 then mp + 3 else mp - 9;
    var y := yoe + era * 400;
    assert CivilOfEra(era, doe) == (if m <= 2 then y + 1 else y, m, d);
    if mp == 11 {
      assert 400 * era + (yoe + 1) == y + 1;
      LeapEra(era, yoe + 1);
      if doy == 365 {
        assert IsLeapYear(yoe + 1);
      }
    }
  }

  /** From a day count to a date and back. */
  lemma CivilRoundTrip(days: int)
    ensures var (y, m, d) := CivilFromDays(days); DaysFromCivil(y, m, d) == days
  {
    var z := days + 719468;
    var era := z / 146097;
    EraSplit(days);
    EraRoundTrip(era, z - era * 146097);
  }

  /** From a day of an era to a date and back. */
  lemma EraRoundTrip(era: int, doe: int)
    requires 0 <= doe <= 146096
    ensures var (y, m, d) := CivilOfEra(era, doe); DaysFromCivil(y, m, d) == era * 146097 + doe - 719468
  {
    DayOfEraBounds(doe);
    var yoe := YearOfEra(doe);
    var doy := DayOfYear(doe);
    MonthOfDay(doy);
    var mp := (5 * doy + 2) / 153;
    var d := doy - (153 * mp + 2) / 5 + 1;
    var m := if mp < 10 then mp + 3 else mp - 9;
    var y := yoe + era * 400;
    assert CivilOfEra(era, doe) == (if m <= 2 then y + 1 else y, m, d);
    DaysFromCivilOf(era, yoe, mp, d);
    assert (153 * mp + 2) / 5 + d - 1 == doy;
    assert yoe * 365 + yoe / 4 - yoe / 100 + doy == doe;
  }

  /** DaysFromCivil of a date given by its era, year of the era, March-based month and day. */
  lemma DaysFromCivilOf(era: int, yoe: int, mp: int, d: int)
    requires 0 <= yoe <= 399 && 0 <= mp <= 11
    ensures var m := if mp < 10 then mp + 3 else mp - 9;
      var y := yoe + era * 400;
      DaysFromCivil(if m <= 2 then y + 1 else y, m, d)
        == era * 146097 + yoe * 365 + yoe / 4 - yoe / 100 + (153 * mp + 2) / 5 + d - 1 - 719468
  {
    var m := if mp < 10 then mp + 3 else mp - 9;
    assert (if m > 2 then m - 3 else m + 9) == mp;
    DivModUnique(yoe + era * 400, 400, era, yoe);
  }

  /** Seconds of the day split into hours, minutes and seconds, and back. */
  lemma TimeOfDay(sod: int)
    requires 0 <= sod < 86400
    ensures sod / 3600 * 3600 + sod % 3600 / 60 * 60 + sod % 60 == sod
    ensures 0 <= sod / 3600 < 24 && 0 <= sod % 3600 / 60 < 60 && 0 <= sod % 60 < 60
  {
    var h := sod / 3600;
    var rest := sod % 3600;
    assert sod == h * 3600 + rest;
    assert rest == rest / 60 * 60 + rest % 60;
    assert rest % 60 == sod % 60 by {
      assert sod == (h * 60 + rest / 60) * 60 + rest % 60;
    }
  }

  /** Reading the date and time back as a timestamp gives the timestamp. */
  lemma TimestampRoundTrip(ts: int)
    ensures TimestampOf(DateTimeOf(ts)) == ts
  {
    CivilRoundTrip(ts / 86400);
    TimeOfDay(ts % 86400);
  }

  /** The range starts on 1 January -262144; the second before it is in year -262145. */
  lemma TimestampRangeStart()
    ensures DateTimeOf(MinTimestamp) == DateTime(-262144, 1, 1, 0, 0, 0)
    ensures DateTimeOf(MinTimestamp - 1) == DateTime(-262145, 12, 31, 23, 59, 59)
  {
    assert MinTimestamp / 86400 == -96465658 && MinTimestamp % 86400 == 0;
    assert (MinTimestamp - 1) / 86400 == -96465659 && (MinTimestamp - 1) % 86400 == 86399;
    assert (-96465658 + 719468) / 146097 == -656;
    assert YearOfEra(93442) == 255 && DayOfYear(93442) == 306;
    assert YearOfEra(93441) == 255 && DayOfYear(93441) == 305;
  }

  /** The range ends on 31 December 262143; the second after it is in year 262144. */
  lemma TimestampRangeEnd()
    ensures DateTimeOf(MaxTimestamp) == DateTime(262143, 12, 31, 23, 59, 59)
    ensures DateTimeOf(MaxTimestamp + 1) == DateTime(262144, 1, 1, 0, 0, 0)
  {
    assert MaxTimestamp / 86400 == 95026601 && MaxTimestamp % 86400 == 86399;
    assert (MaxTimestamp + 1) / 86400 == 95026602 && (MaxTimestamp + 1) % 86400 == 0;
    assert (95026601 + 719468) / 146097 == 655;
    assert YearOfEra(52534) == 143 && DayOfYear(52534) == 305;
    assert YearOfEra(52535) == 143 && DayOfYear(52535) == 306;
  }

  /** `n` in decimal, left-padded with zeros to at least `width` characters. */
  function ZeroPad(n: nat, width: nat): (s: string)
    ensures |s| >= width && AllDigits(s)
  {
    var digits := NatDigits(n);
    if |digits| >= width then digits else seq(width - |digits|, _ => '0') + digits
  }

  /** chrono's `%Y`: four digits for years 0..9999, otherwise a sign and at least four digits. */
  function YearField(y: int): string
  {
    if 0 <= y <= 9999 then ZeroPad(y, 4)
    else (if y < 0 then "-" else "+") + ZeroPad(if y < 0 then -y else y, 4)
  }

  /** `%m`, `%d`, `%H`, `%M`, `%S`: a number below 100 as exactly two decimal digits. */
  function TwoDigits(n: int): (s: string)
    requires 0 <= n < 100
    ensures |s| == 2 && AllDigits(s)
    ensures DigitsValue(s) == n
  {
    var s := [DigitChar(n / 10), DigitChar(n % 10)];
    assert s[..1][..0] == [] && s[..1] == [DigitChar(n / 10)];
    assert DigitsValue(s[..1]) == n / 10;
    s
  }

  predicate ValidDateTime(dt: DateTime) {
    1 <= dt.month <= 12 && 1 <= dt.day <= DaysInMonth(dt.year, dt.month) &&
    0 <= dt.hour < 24 && 0 <= dt.minute < 60 && 0 <= dt.second < 60
  }

  /** `%Y-%m-%d %H:%M:%S` of a calendar date and time. */
  function Render(dt: DateTime): (s: string)
    requires ValidDateTime(dt)
    ensures |s| >= 19 && '%' !in s
    ensures s[|s| - 2..] == TwoDigits(dt.second)
  {
    var year := YearField(dt.year);
    DigitsNoPercent(ZeroPad(if dt.year < 0 then -dt.year else dt.year, 4));
    DigitsNoPercent(TwoDigits(dt.month));
    DigitsNoPercent(TwoDigits(dt.day));
    DigitsNoPercent(TwoDigits(dt.hour));
    DigitsNoPercent(TwoDigits(dt.minute));
    DigitsNoPercent(TwoDigits(dt.second));
    year + "-" + TwoDigits(dt.month) + "-" + TwoDigits(dt.day) + " " +
    TwoDigits(dt.hour) + ":" + TwoDigits(dt.minute) + ":" + TwoDigits(dt.second)
  }

  /** The two-digit field of `s` that starts at `i`, read as a number. */
  predicate FieldIs(s: string, i: nat, v: int)
  {
    i + 2 <= |s| && AllDigits(s[i..i + 2]) && DigitsValue(s[i..i + 2]) == v
  }

  /**
   * `s` is laid out as `YYYY-MM-DD HH:MM:SS` for `dt`: the year field, then
   * the separators and two-digit fields at their places from the end.
   */
  predicate LaidOut(s: string, dt: DateTime)
  {
    var n := |s|;
    && n >= 19
    && s[n - 15] == '-' && s[n - 12] == '-' && s[n - 9] == ' ' && s[n - 6] == ':' && s[n - 3] == ':'
    && FieldIs(s, n - 14, dt.month) && FieldIs(s, n - 11, dt.day) && FieldIs(s, n - 8, dt.hour)
    && FieldIs(s, n - 5, dt.minute) && FieldIs(s, n - 2, dt.second)
    && s[..n - 15] == YearField(dt.year)
  }

  /**
   * Reading a rendering back: the last 15 characters are `-MM-DD HH:MM:SS`
   * with the month, day, hour, minute and second of `dt`, and what comes
   * before them is the year.
   */
  lemma RenderFields(dt: DateTime)
    requires ValidDateTime(dt)
    ensures LaidOut(Render(dt), dt)
  {
    var mo, d, h, mi, se := TwoDigits(dt.month), TwoDigits(dt.day), TwoDigits(dt.hour), TwoDigits(dt.minute), TwoDigits(dt.second);
    RenderedFields(YearField(dt.year), mo, d, h, mi, se);
  }

  /** A year text followed by `-MM-DD HH:MM:SS`, read field by field from the end. */
  lemma RenderedFields(year: string, mo: string, d: string, h: string, mi: string, se: string)
    requires |mo| == 2 && |d| == 2 && |h| == 2 && |mi| == 2 && |se| == 2
    ensures var s := year + "-" + mo + "-" + d + " " + h + ":" + mi + ":" + se; var n := |s|;
      && n == |year| + 15
      && s[n - 15] == '-' && s[n - 12] == '-' && s[n - 9] == ' ' && s[n - 6] == ':' && s[n - 3] == ':'
      && s[n - 14..n - 12] == mo && s[n - 11..n - 9] == d && s[n - 8..n - 6] == h
      && s[n - 5..n - 3] == mi && s[n - 2..n] == se && s[..n - 15] == year
  {
    var tail := "-" + mo + "-" + d + " " + h + ":" + mi + ":" + se;
    var s := year + "-" + mo + "-" + d + " " + h + ":" + mi + ":" + se;
    assert s == year + tail;
    TailFields(mo, d, h, mi, se);
    var n := |s|;
    assert s[n - 15..] == tail && s[..n - 15] == year;
  }

  /** The `-MM-DD HH:MM:SS` part of a rendering, field by field. */
  lemma TailFields(mo: string, d: string, h: string, mi: string, se: string)
    requires |mo| == 2 && |d| == 2 && |h| == 2 && |mi| == 2 && |se| == 2
    ensures var t := "-" + mo + "-" + d + " " + h + ":" + mi + ":" + se;
      && |t| == 15 && t[0] == '-' && t[3] == '-' && t[6] == ' ' && t[9] == ':' && t[12] == ':'
      && t[1..3] == mo && t[4..6] == d && t[7..9] == h && t[10..12] == mi && t[13..] == se
  {
  }

  /** The year field parses back as the year, for every year a 64-bit integer holds. */
  lemma YearFieldParses(y: int)
    requires InI64(y)
    ensures ParseI64(YearField(y)) == Some(y)
  {
    var m := if y < 0 then -y else y;
    var z := ZeroPad(m, 4);
    ZeroPadValue(m, 4);
    var s := YearField(y);
    if 0 <= y <= 9999 {
      assert s == z && IsDigit(s[0]);
    } else {
      assert s[1..] == z;
    }
  }

  /** Leading zeros do not change the value of a run of digits. */
  lemma ZeroPadValue(n: nat, width: nat)
    ensures DigitsValue(ZeroPad(n, width)) == n
  {
    var digits := NatDigits(n);
    NatDigitsValue(n);
    if |digits| < width {
      LeadingZeros(width - |digits|, digits);
    }
  }

  lemma {:induction false} LeadingZeros(k: nat, s: string)
    requires AllDigits(s)
    ensures AllDigits(seq(k, _ => '0') + s) && DigitsValue(seq(k, _ => '0') + s) == DigitsValue(s)
    decreases |s|
  {
    var z: string := seq(k, _ => '0');
    if s == [] {
      assert z + s == z;
      ZerosValue(k);
    } else {
      var init := s[..|s| - 1];
      LeadingZeros(k, init);
      assert (z + s)[..|z + s| - 1] == z + init;
    }
  }

  lemma {:induction false} ZerosValue(k: nat)
    ensures AllDigits(seq(k, _ => '0')) && DigitsValue(seq(k, _ => '0')) == 0
  {
    if k > 0 {
      ZerosValue(k - 1);
      assert seq(k, _ => '0')[..k - 1] == seq(k - 1, _ => '0');
    }
  }

  lemma DigitsNoPercent(s: string)
    requires AllDigits(s)
    ensures '%' !in s
  {
    forall i | 0 <= i < |s| ensures s[i] != '%' {
      assert IsDigit(s[i]);
    }
  }

  /**
   * Reading `YYYY-MM-DD HH:MM:SS` back as a timestamp: the separators at
   * their places, two-digit fields, a year that parses as an integer.
   */
  function ReadDateString(s: string): Option<int>
  {
    var n := |s|;
    if n < 19 || s[n - 15] != '-' || s[n - 12] != '-' || s[n - 9] != ' ' || s[n - 6] != ':' || s[n - 3] != ':' then None
    else if !(AllDigits(s[n - 14..n - 12]) && AllDigits(s[n - 11..n - 9]) && AllDigits(s[n - 8..n - 6])
              && AllDigits(s[n - 5..n - 3]) && AllDigits(s[n - 2..])) then None
    else
      match ParseI64(s[..n - 15])
      case None => None
      case Some(y) =>
        Some(TimestampOf(DateTime(y, DigitsValue(s[n - 14..n - 12]), DigitsValue(s[n - 11..n - 9]),
                                  DigitsValue(s[n - 8..n - 6]), DigitsValue(s[n - 5..n - 3]), DigitsValue(s[n - 2..]))))
  }

  /** The years of the supported range are far within 64 bits. */
  lemma YearBound(ts: int)
    requires MinTimestamp <= ts <= MaxTimestamp
    ensures -300000 <= DateTimeOf(ts).year <= 300000
  {
    var days := ts / 86400;
    assert -96465658 <= days <= 95026601;
    var z := days + 719468;
    var era := z / 146097;
    assert -656 <= era <= 655;
    EraSplit(days);
    DayOfEraBounds(z - era * 146097);
  }

  /**
   * `get_date_string`: the timestamp as `YYYY-MM-DD HH:MM:SS` in UTC, which
   * reads back as the timestamp. The date library panics outside its range,
   * hence the precondition.
   */
  function DateString(ts: int): (s: string)
    requires MinTimestamp <= ts <= MaxTimestamp
    ensures |s| >= 19 && '%' !in s
    ensures ReadDateString(s) == Some(ts)
  {
    DateTimeValid(ts);
    DateStringReads(ts);
    Render(DateTimeOf(ts))
  }

  lemma DateStringReads(ts: int)
    requires MinTimestamp <= ts <= MaxTimestamp
    requires ValidDateTime(DateTimeOf(ts))
    ensures ReadDateString(Render(DateTimeOf(ts))) == Some(ts)
  {
    YearBound(ts);
    RenderReads(DateTimeOf(ts));
    TimestampRoundTrip(ts);
  }

  /** A rendering reads back as the timestamp of the date and time rendered. */
  lemma RenderReads(dt: DateTime)
    requires ValidDateTime(dt) && InI64(dt.year)
    ensures ReadDateString(Render(dt)) == Some(TimestampOf(dt))
  {
    RenderFields(dt);
    ReadFields(Render(dt), dt);
  }

  /** A text laid out for `dt`, with a year within 64 bits, reads back as its timestamp. */
  lemma ReadFields(s: string, dt: DateTime)
    requires LaidOut(s, dt) && InI64(dt.year)
    ensures ReadDateString(s) == Some(TimestampOf(dt))
  {
    YearFieldParses(dt.year);
    assert s[|s| - 2..] == s[|s| - 2..|s|];
  }

  lemma CivilEpoch()
    ensures CivilFromDays(0) == (1970, 1, 1)
  {
    assert 719468 / 146097 == 4;
    assert YearOfEra(135080) == 369;
    assert DayOfYear(135080) == 306;
  }

  /** The epoch renders as 1970-01-01 00:00:00. */
  lemma DateStringEpoch()
    ensures DateString(0) == "1970-01-01 00:00:00"
  {
    CivilEpoch();
    assert DateTimeOf(0) == DateTime(1970, 1, 1, 0, 0, 0);
    RenderEpoch();
  }

  lemma RenderEpoch()
    ensures Render(DateTime(1970, 1, 1, 0, 0, 0)) == "1970-01-01 00:00:00"
  {
    YearDigits1970();
    assert YearField(1970) == "1970";
    TwoDigitsSmall();
  }

  lemma TwoDigitsSmall()
    ensures TwoDigits(0) == "00" && TwoDigits(1) == "01"
  {
    assert DigitChar(0) == '0' && DigitChar(1) == '1';
  }

  lemma YearDigits1970()
    ensures NatDigits(1970) == "1970"
  {
    assert DigitChar(1) == '1' && DigitChar(9) == '9' && DigitChar(7) == '7' && DigitChar(0) == '0';
    assert NatDigits(1) == "1";
    assert NatDigits(19) == NatDigits(1) + ['9'];
    assert NatDigits(197) == NatDigits(19) + ['7'];
    assert NatDigits(1970) == NatDigits(197) + ['0'];
  }

  /**
   * The rendered text has no '%' (so a later template substitution cannot
   * fire inside it) and ends with the seconds, `ts mod 60`.
   */
  lemma DateStringSeconds(ts: int)
    requires MinTimestamp <= ts <= MaxTimestamp
    ensures var s := DateString(ts);
      |s| >= 19 && '%' !in s && s[|s| - 2..] == TwoDigits(ts % 60)
  {
    SecondOfMinute(ts);
    DateTimeValid(ts);
    assert DateTimeOf(ts).second == ts % 60;
  }

  lemma SecondOfMinute(ts: int)
    ensures ts % 86400 % 60 == ts % 60
  {
    var q := ts / 86400;
    var sod := ts % 86400;
    var a, b := sod / 60, sod % 60;
    assert ts == 86400 * q + sod;
    assert sod == 60 * a + b && 0 <= b < 60;
    assert ts == 60 * (1440 * q + a) + b;
    DivModUnique(ts, 60, 1440 * q + a, b);
  }
}
