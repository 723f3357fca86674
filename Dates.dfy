/** Calendar dates and the subset of `datetime.strptime` / `strftime` the
    pipeline uses: the formats `%Y-%m-%d`, `%d.%m.%Y`, `%d/%m/%Y`,
    `%d-%m-%Y` for reading and `%Y%m%d` for writing. A `datetime` produced by
    `strptime` from these formats always has time 00:00, so a date is a
    (year, month, day) triple. */
module Dates {
  import opened Wrappers
  import opened Text

  datatype Ymd = Ymd(year: int, month: int, day: int)

  predicate IsLeapYear(y: int) { y % 4 == 0 && (y % 100 != 0 || y % 400 == 0) }

  function DaysInMonth(y: int, m: int): (n: int)
    requires 1 <= m <= 12
    ensures 28 <= n <= 31
    ensures n == 29 <==> m == 2 && IsLeapYear(y)
  {
    if m == 2 then (if IsLeapYear(y) then 29 else 28)
    else if m == 4 || m == 6 || m == 9 || m == 11 then 30
    else 31
  }

  /** What the `datetime` constructor accepts (`MINYEAR` is 1, `MAXYEAR` 9999). */
  predicate IsCalendarDate(d: Ymd)
  {
    1 <= d.year <= 9999 && 1 <= d.month <= 12 && 1 <= d.day <= DaysInMonth(d.year, d.month)
  }

  /** A `datetime` at midnight. */
  type Date = d: Ymd | IsCalendarDate(d) witness Ymd(1, 1, 1)

  /** `datetime.min`, the sort key the pipeline gives an undated invoice. */
  const MIN_DATE: Date := Ymd(1, 1, 1)

  /** Chronological order. */
  predicate Before(a: Ymd, b: Ymd)
  {
    a.year < b.year || (a.year == b.year && (a.month < b.month || (a.month == b.month && a.day < b.day)))
  }

  predicate NotAfter(a: Ymd, b: Ymd) { !Before(b, a) }

  lemma NotAfterTotalOrder(a: Ymd, b: Ymd, c: Ymd)
    ensures NotAfter(a, b) || NotAfter(b, a)
    ensures NotAfter(a, b) && NotAfter(b, a) ==> a == b
    ensures NotAfter(a, b) && NotAfter(b, c) ==> NotAfter(a, c)
  {
  }

  /** No date comes before `datetime.min`. */
  lemma MinDateIsLeast(d: Date)
    ensures NotAfter(MIN_DATE, d)
  {
  }

  /** Python's `max` over a non-empty list of dates: a left-to-right scan
      that replaces the running maximum only by a strictly later date. */
  function MaxDate(ds: seq<Date>): (m: Date)
    requires ds != []
    ensures m in ds
    ensures forall d :: d in ds ==> NotAfter(d, m)
  {
    if |ds| == 1 then ds[0]
    else
      var m := MaxDate(ds[..|ds| - 1]);
      assert forall d :: d in ds ==> d in ds[..|ds| - 1] || d == ds[|ds| - 1];
      if Before(m, ds[|ds| - 1]) then ds[|ds| - 1] else m
  }

  // ---------------------------------------------------------------------
  // strptime

  /** One piece of a `strptime` format string. */
  datatype Directive = DayField | MonthField | YearField | Literal(c: char)

  type Format = seq<Directive>

  /** `%Y-%m-%d` */
  const ISO_FORMAT: Format := [YearField, Literal('-'), MonthField, Literal('-'), DayField]

  /** `%d<sep>%m<sep>%Y` */
  function DayFirstFormat(sep: char): Format
  {
    [DayField, Literal(sep), MonthField, Literal(sep), YearField]
  }

  /** The three formats the HTML heuristic tries, in order: `%d.%m.%Y`, `%d/%m/%Y`, `%d-%m-%Y`. */
  const HTML_FORMATS: seq<Format> := [DayFirstFormat('.'), DayFirstFormat('/'), DayFirstFormat('-')]

  /** `%d`, whose regular expression is `3[01]|[12]\d|0[1-9]|[1-9]| [1-9]`:
      the first alternative that matches a prefix of `s` gives the value and
      the number of characters consumed. Backtracking into a later alternative
      can never rescue a failed match in the formats used here, because every
      shorter alternative ends where a longer one read a digit, and no literal
      that follows a field is a digit. */
  function MatchDay(s: string): (r: Option<(int, nat)>)
    ensures r.Some? ==> 1 <= r.value.0 <= 31 && 1 <= r.value.1 <= 2 && r.value.1 <= |s|
  {
    if |s| >= 2 && s[0] == '3' && (s[1] == '0' || s[1] == '1') then Some((30 + DigitValue(s[1]), 2))
    else if |s| >= 2 && (s[0] == '1' || s[0] == '2') && IsDigit(s[1]) then Some((10 * DigitValue(s[0]) + DigitValue(s[1]), 2))
    else if |s| >= 2 && s[0] == '0' && '1' <= s[1] <= '9' then Some((DigitValue(s[1]), 2))
    else if |s| >= 1 && '1' <= s[0] <= '9' then Some((DigitValue(s[0]), 1))
    else if |s| >= 2 && s[0] == ' ' && '1' <= s[1] <= '9' then Some((DigitValue(s[1]), 2))
    else None
  }

  /** `%m`, whose regular expression is `1[0-2]|0[1-9]|[1-9]`. */
  function MatchMonth(s: string): (r: Option<(int, nat)>)
    ensures r.Some? ==> 1 <= r.value.0 <= 12 && 1 <= r.value.1 <= 2 && r.value.1 <= |s|
  {
    if |s| >= 2 && s[0] == '1' && '0' <= s[1] <= '2' then Some((10 + DigitValue(s[1]), 2))
    else if |s| >= 2 && s[0] == '0' && '1' <= s[1] <= '9' then Some((DigitValue(s[1]), 2))
    else if |s| >= 1 && '1' <= s[0] <= '9' then Some((DigitValue(s[0]), 1))
    else None
  }

  /** `%Y`, whose regular expression is `\d\d\d\d`. */
  function MatchYear(s: string): (r: Option<(int, nat)>)
    ensures r.Some? ==> 0 <= r.value.0 <= 9999 && r.value.1 == 4 <= |s|
  {
    if |s| >= 4 && IsDigit(s[0]) && IsDigit(s[1]) && IsDigit(s[2]) && IsDigit(s[3]) then
      Some((1000 * DigitValue(s[0]) + 100 * DigitValue(s[1]) + 10 * DigitValue(s[2]) + DigitValue(s[3]), 4))
    else None
  }

  /** Runs the format against a prefix of `s`, filling in the fields it
      names; yields the fields and the unconsumed rest of `s`. */
  function MatchFormat(s: string, fmt: Format, f: Ymd): (r: Option<(Ymd, string)>)
    ensures r.Some? ==> |r.value.1| <= |s|
    decreases fmt
  {
    if fmt == [] then Some((f, s))
    else match fmt[0]
      case Literal(c) =>
        if s != [] && s[0] == c then MatchFormat(s[1..], fmt[1..], f) else None
      case DayField =>
        (match MatchDay(s)
         case None => None
         case Some(vn) => MatchFormat(s[vn.1..], fmt[1..], f.(day := vn.0)))
      case MonthField =>
        (match MatchMonth(s)
         case None => None
         case Some(vn) => MatchFormat(s[vn.1..], fmt[1..], f.(month := vn.0)))
      case YearField =>
        (match MatchYear(s)
         case None => None
         case Some(vn) => MatchFormat(s[vn.1..], fmt[1..], f.(year := vn.0)))
  }

  /** `datetime.strptime(s, fmt)`, `None` standing for the `ValueError` it
      raises: the format must match, no text may remain after it, and the
      fields (year 1900, January and day 1 where the format omits them) must
      form a calendar date. */
  function Strptime(s: string, fmt: Format): (r: Option<Date>)
    ensures r.Some? ==> MatchFormat(s, fmt, Ymd(1900, 1, 1)) == Some((r.value, []))
  {
    match MatchFormat(s, fmt, Ymd(1900, 1, 1))
    case None => None
    case Some((f, rest)) => if rest == [] && IsCalendarDate(f) then Some(f) else None
  }

  // ---------------------------------------------------------------------
  // strftime

  function TwoDigits(n: int): (s: string)
    requires 0 <= n < 100
    ensures |s| == 2 && AllDigits(s)
  {
    [DigitChar(n / 10), DigitChar(n % 10)]
  }

  function FourDigits(n: int): (s: string)
    requires 0 <= n < 10000
    ensures |s| == 4 && AllDigits(s)
  {
    TwoDigits(n / 100) + TwoDigits(n % 100)
  }

  /** `strftime("%Y%m%d")`: eight digits in which the year, the month and
      the day are read back in that order. */
  function CompactText(d: Date): (s: string)
    ensures |s| == 8 && AllDigits(s)
    ensures MatchYear(s) == Some((d.year, 4))
    ensures MatchMonth(s[4..]) == Some((d.month, 2))
    ensures MatchDay(s[6..]) == Some((d.day, 2))
  {
    var y, m, dd := FourDigits(d.year), TwoDigits(d.month), TwoDigits(d.day);
    MatchYearFourDigits(d.year, m + dd);
    MatchMonthTwoDigits(d.month, dd);
    MatchDayTwoDigits(d.day, []);
    assert (y + m + dd)[4..] == m + dd;
    assert (y + m + dd)[6..] == dd + [];
    y + m + dd
  }

  /** `strftime("%Y-%m-%d")`, the shape of UBL's `cbc:IssueDate`. */
  function IsoText(d: Ymd): string
    requires 0 <= d.year < 10000 && 0 <= d.month < 100 && 0 <= d.day < 100
  {
    FourDigits(d.year) + "-" + TwoDigits(d.month) + "-" + TwoDigits(d.day)
  }

  /** `strftime("%d<sep>%m<sep>%Y")`. */
  function DayFirstText(d: Ymd, sep: char): string
    requires 0 <= d.year < 10000 && 0 <= d.month < 100 && 0 <= d.day < 100
  {
    TwoDigits(d.day) + [sep] + TwoDigits(d.month) + [sep] + FourDigits(d.year)
  }

  lemma MatchDayTwoDigits(n: int, rest: string)
    requires 1 <= n <= 31
    ensures MatchDay(TwoDigits(n) + rest) == Some((n, 2))
  {
  }

  lemma MatchMonthTwoDigits(n: int, rest: string)
    requires 1 <= n <= 12
    ensures MatchMonth(TwoDigits(n) + rest) == Some((n, 2))
  {
  }

  lemma MatchYearFourDigits(n: int, rest: string)
    requires 0 <= n <= 9999
    ensures MatchYear(FourDigits(n) + rest) == Some((n, 4))
  {
    var h, l := n / 100, n % 100;
    var s := FourDigits(n) + rest;
    assert s[0] == DigitChar(h / 10) && s[1] == DigitChar(h % 10);
    assert s[2] == DigitChar(l / 10) && s[3] == DigitChar(l % 10);
    assert n == 100 * h + l;
    assert h == 10 * (h / 10) + h % 10;
    assert l == 10 * (l / 10) + l % 10;
  }

  /** A zero-padded ISO date is read back as itself exactly when its fields
      form a calendar date (so `2024-02-29` is read, `2023-02-29` is not). */
  lemma {:induction false} IsoRoundTrip(d: Ymd)
    requires 0 <= d.year <= 9999 && 1 <= d.month <= 12 && 1 <= d.day <= 31
    ensures Strptime(IsoText(d), ISO_FORMAT) == if IsCalendarDate(d) then Some(d) else None
  {
    var y, m, dd := FourDigits(d.year), TwoDigits(d.month), TwoDigits(d.day);
    var s := IsoText(d);
    var f0 := Ymd(1900, 1, 1);
    assert s == y + ("-" + m + "-" + dd);
    MatchYearFourDigits(d.year, "-" + m + "-" + dd);
    assert s[4..] == "-" + m + "-" + dd;
    var s1 := s[5..];
    assert s1 == m + ("-" + dd);
    MatchMonthTwoDigits(d.month, "-" + dd);
    assert s1[2..] == "-" + dd;
    var s2 := s1[3..];
    assert s2 == dd + [];
    MatchDayTwoDigits(d.day, []);
    assert s2[2..] == [];
    var f1 := f0.(year := d.year);
    var f2 := f1.(month := d.month);
    assert MatchFormat(s2, [DayField], f2) == Some((d, []));
    assert MatchFormat(s1, [MonthField, Literal('-'), DayField], f1) == Some((d, []));
    assert MatchFormat(s, ISO_FORMAT, f0) == Some((d, []));
  }

  /** The same for the day-first shapes, whatever the separator. */
  lemma {:induction false} DayFirstRoundTrip(d: Ymd, sep: char)
    requires 0 <= d.year <= 9999 && 1 <= d.month <= 12 && 1 <= d.day <= 31
    ensures Strptime(DayFirstText(d, sep), DayFirstFormat(sep)) == if IsCalendarDate(d) then Some(d) else None
  {
    var y, m, dd := FourDigits(d.year), TwoDigits(d.month), TwoDigits(d.day);
    var s := DayFirstText(d, sep);
    var f0 := Ymd(1900, 1, 1);
    assert s == dd + ([sep] + m + [sep] + y);
    MatchDayTwoDigits(d.day, [sep] + m + [sep] + y);
    assert s[2..] == [sep] + m + [sep] + y;
    var s1 := s[3..];
    assert s1 == m + ([sep] + y);
    MatchMonthTwoDigits(d.month, [sep] + y);
    assert s1[2..] == [sep] + y;
    var s2 := s1[3..];
    assert s2 == y + [];
    MatchYearFourDigits(d.year, []);
    assert s2[4..] == [];
    var f1 := f0.(day := d.day);
    var f2 := f1.(month := d.month);
    assert MatchFormat(s2, [YearField], f2) == Some((d, []));
    assert MatchFormat(s1, [MonthField, Literal(sep), YearField], f1) == Some((d, []));
    assert MatchFormat(s, DayFirstFormat(sep), f0) == Some((d, []));
  }

  /** Worked cases: 29 February exists in 2024 and not in 2023. */
  lemma LeapDayExample(t: string)
    requires t == "2024-02-29"
    ensures Strptime(t, ISO_FORMAT) == Some(Ymd(2024, 2, 29))
  {
    IsoRoundTrip(Ymd(2024, 2, 29));
    LeapDayText(t);
  }

  lemma LeapDayText(t: string)
    requires t == "2024-02-29"
    ensures IsoText(Ymd(2024, 2, 29)) == t
  {
  }

  lemma NoLeapDayExample(t: string)
    requires t == "2023-02-29"
    ensures Strptime(t, ISO_FORMAT) == None
  {
    IsoRoundTrip(Ymd(2023, 2, 29));
    NoLeapDayText(t);
  }

  lemma NoLeapDayText(t: string)
    requires t == "2023-02-29"
    ensures IsoText(Ymd(2023, 2, 29)) == t
  {
  }
}
