/** Days since 1970-01-01 as Gregorian dates and RFC 3339 timestamps:
  * xtask/src/corpus_backstop.rs. */
module CivilDate {
  import opened Wrappers
  import opened Text

  const YEAR_LIMIT: nat := 0x1_0000_0000   // one past the largest u32
  const SECONDS_LIMIT: nat := 0x1_0000_0000_0000_0000   // one past the largest u64

  type U64 = n: nat | n < SECONDS_LIMIT

  datatype Date = Date(year: nat, month: nat, day: nat)

  datatype DateError = YearOverflow

  // ---------- the Gregorian calendar ----------

  predicate IsLeap(year: nat) {
    (year % 4 == 0 && year % 100 != 0) || year % 400 == 0
  }

  function MonthDays(leap: bool): (days: seq<nat>)
    ensures |days| == 12 && forall m :: 0 <= m < 12 ==> 28 <= days[m] <= 31
  {
    [31, if leap then 29 else 28, 31, 30, 31, 30, 31, 31, 30, 31, 30, 31]
  }

  function DaysInYear(year: nat): nat {
    if IsLeap(year) then 366 else 365
  }

  /** How many of the years 1..year are leap years, counted by centuries. */
  function LeapsThrough(year: nat): int {
    year / 4 - year / 100 + year / 400
  }

  /** Days from 1970-01-01 to the first day of the year, in closed form. */
  function DaysBeforeYear(year: nat): int
    requires year >= 1970
  {
    365 * (year - 1970) + LeapsThrough(year - 1) - LeapsThrough(1969)
  }

  function DaysBeforeMonth(leap: bool, month: nat): nat
    requires 1 <= month <= 13
  {
    if month == 1 then 0 else DaysBeforeMonth(leap, month - 1) + MonthDays(leap)[month - 2]
  }

  predicate Valid(d: Date) {
    d.year >= 1970 && 1 <= d.month <= 12 && 1 <= d.day <= MonthDays(IsLeap(d.year))[d.month - 1]
  }

  /** Days since 1970-01-01. */
  function DayNumber(d: Date): int
    requires Valid(d)
  {
    DaysBeforeYear(d.year) + DaysBeforeMonth(IsLeap(d.year), d.month) + d.day - 1
  }

  /** Earlier in the calendar: by year, then month, then day. */
  predicate Earlier(a: Date, b: Date) {
    a.year < b.year || (a.year == b.year && (a.month < b.month || (a.month == b.month && a.day < b.day)))
  }

  lemma NextYear(year: nat)
    requires year >= 1970
    ensures DaysBeforeYear(year + 1) == DaysBeforeYear(year) + DaysInYear(year)
  {
    hide IsLeap, LeapsThrough;
    LeapAdds(year);
  }

  lemma LeapAdds(year: nat)
    requires year > 0
    ensures LeapsThrough(year) - LeapsThrough(year - 1) == if IsLeap(year) then 1 else 0
  {
    NextQuotient(year);
    LeapDivides(year);
  }

  lemma LeapDivides(year: nat)
    ensures year % 400 == 0 ==> year % 100 == 0
    ensures year % 100 == 0 ==> year % 4 == 0
  {
    var q, k := year / 400, year / 100;
    assert year % 400 == 0 ==> year % 100 == 100 * (4 * q - k);
    assert year % 100 == 0 ==> year % 4 == 4 * (25 * k - year / 4);
  }

  lemma NextQuotient(n: nat)
    requires n > 0
    ensures n / 4 - (n - 1) / 4 == if n % 4 == 0 then 1 else 0
    ensures n / 100 - (n - 1) / 100 == if n % 100 == 0 then 1 else 0
    ensures n / 400 - (n - 1) / 400 == if n % 400 == 0 then 1 else 0
  {
    NextBy4(n);
    NextBy100(n);
    NextBy400(n);
  }

  lemma NextBy4(n: nat)
    requires n > 0
    ensures n / 4 - (n - 1) / 4 == if n % 4 == 0 then 1 else 0
  {}

  lemma NextBy100(n: nat)
    requires n > 0
    ensures n / 100 - (n - 1) / 100 == if n % 100 == 0 then 1 else 0
  {}

  lemma NextBy400(n: nat)
    requires n > 0
    ensures n / 400 - (n - 1) / 400 == if n % 400 == 0 then 1 else 0
  {}


  lemma {:induction false} LaterYear(a: nat, b: nat)
    requires 1970 <= a < b
    ensures DaysBeforeYear(a) + DaysInYear(a) <= DaysBeforeYear(b)
    decreases b
  {
    NextYear(b - 1);
    if a < b - 1 {
      LaterYear(a, b - 1);
    } else {
      assert a == b - 1;
    }
  }

  lemma {:induction false} LaterMonth(leap: bool, a: nat, b: nat)
    requires 1 <= a < b <= 13
    ensures DaysBeforeMonth(leap, a) + MonthDays(leap)[a - 1] <= DaysBeforeMonth(leap, b)
    decreases b
  {
    if a < b - 1 {
      LaterMonth(leap, a, b - 1);
    }
  }

  lemma MonthsFillYear(leap: bool)
    ensures DaysBeforeMonth(leap, 13) == if leap then 366 else 365
  {
    var feb := if leap then 29 else 28;
    assert DaysBeforeMonth(leap, 2) == 31;
    assert DaysBeforeMonth(leap, 3) == 31 + feb;
    assert DaysBeforeMonth(leap, 4) == 62 + feb;
    assert DaysBeforeMonth(leap, 5) == 92 + feb;
    assert DaysBeforeMonth(leap, 6) == 123 + feb;
    assert DaysBeforeMonth(leap, 7) == 153 + feb;
    assert DaysBeforeMonth(leap, 8) == 184 + feb;
    assert DaysBeforeMonth(leap, 9) == 215 + feb;
    assert DaysBeforeMonth(leap, 10) == 245 + feb;
    assert DaysBeforeMonth(leap, 11) == 276 + feb;
    assert DaysBeforeMonth(leap, 12) == 306 + feb;
  }

  lemma WithinYear(d: Date)
    requires Valid(d)
    ensures DaysBeforeYear(d.year) <= DayNumber(d) < DaysBeforeYear(d.year) + DaysInYear(d.year)
  {
    var leap := IsLeap(d.year);
    MonthsFillYear(leap);
    LaterMonth(leap, d.month, 13);
  }

  lemma NumberBelowYear(d: Date, year: nat)
    requires Valid(d) && d.year < year
    ensures DayNumber(d) < DaysBeforeYear(year)
  {
    WithinYear(d);
    LaterYear(d.year, year);
  }

  lemma EarlierHasSmallerNumber(a: Date, b: Date)
    requires Valid(a) && Valid(b) && Earlier(a, b)
    ensures DayNumber(a) < DayNumber(b)
  {
    if a.year < b.year {
      WithinYear(a);
      WithinYear(b);
      LaterYear(a.year, b.year);
    } else if a.month < b.month {
      LaterMonth(IsLeap(a.year), a.month, b.month);
    }
  }

  /** Day numbers order dates exactly as the calendar does, so they name them uniquely. */
  lemma DayNumberOrder(a: Date, b: Date)
    requires Valid(a) && Valid(b)
    ensures DayNumber(a) < DayNumber(b) <==> Earlier(a, b)
    ensures DayNumber(a) == DayNumber(b) <==> a == b
  {
    if Earlier(a, b) {
      EarlierHasSmallerNumber(a, b);
    } else if Earlier(b, a) {
      EarlierHasSmallerNumber(b, a);
    }
  }

  // ---------- the conversion ----------

  method DaysToYmd(days: U64) returns (r: Result<Date, DateError>)
    ensures r.Ok? ==> Valid(r.value) && DayNumber(r.value) == days && r.value.year < YEAR_LIMIT
    ensures r.Err? <==> days >= DaysBeforeYear(YEAR_LIMIT)
    ensures forall d: Date :: Valid(d) && d.year < YEAR_LIMIT && DayNumber(d) == days ==> r == Ok(d)
  {
    var y := 1970;
    var remaining: nat := days;
    while true
      invariant 1970 <= y < YEAR_LIMIT
      invariant DaysBeforeYear(y) + remaining == days
      decreases remaining
    {
      var daysInYear := if IsLeap(y) then 366 else 365;
      if remaining < daysInYear {
        break;
      }
      NextYear(y);
      remaining := remaining - daysInYear;
      if y + 1 == YEAR_LIMIT {
        forall d: Date | Valid(d) && d.year < YEAR_LIMIT
          ensures DayNumber(d) != days
        {
          NumberBelowYear(d, YEAR_LIMIT);
        }
        return Err(YearOverflow);
      }
      y := y + 1;
    }
    LaterYear(y, YEAR_LIMIT);
    var leap := IsLeap(y);
    var monthDays := MonthDays(leap);
    MonthsFillYear(leap);
    var m := 1;
    for i := 0 to 12
      invariant m == i + 1
      invariant DaysBeforeYear(y) + DaysBeforeMonth(leap, m) + remaining == days
      invariant DaysBeforeMonth(leap, m) + remaining < DaysBeforeMonth(leap, 13)
    {
      if remaining < monthDays[i] {
        break;
      }
      remaining := remaining - monthDays[i];
      m := m + 1;
    }
    var date := Date(y, m, remaining + 1);
    forall d: Date | Valid(d) && DayNumber(d) == days
      ensures d == date
    {
      DayNumberOrder(d, date);
    }
    r := Ok(date);
  }

  // ---------- timestamps ----------

  function Pow10(width: nat): nat {
    if width == 0 then 1 else 10 * Pow10(width - 1)
  }

  /** Decimal notation with zeros in front up to the given width. */
  function Pad(n: nat, width: nat): string {
    var s := Decimal(n);
    seq(if |s| < width then width - |s| else 0, _ => '0') + s
  }

  lemma {:induction false} PadLastDigit(n: nat, width: nat)
    requires width > 1
    ensures Pad(n, width) == Pad(n / 10, width - 1) + [Digit(n % 10)]
  {
    if n < 10 {
      assert Decimal(n / 10) == "0" && Decimal(n) == [Digit(n % 10)];
    } else {
      assert Decimal(n) == Decimal(n / 10) + [Digit(n % 10)];
    }
  }

  lemma AppendDigitOrder(p: string, x: nat, q: string, y: nat)
    requires |p| == |q| && x < 10 && y < 10
    ensures StrLess(p + [Digit(x)], q + [Digit(y)]) <==> StrLess(p, q) || (p == q && x < y)
    ensures p + [Digit(x)] == q + [Digit(y)] <==> p == q && x == y
  {
    StrLessAppend(p, [Digit(x)], q, [Digit(y)]);
    assert (p + [Digit(x)])[..|p|] == p && (q + [Digit(y)])[..|q|] == q;
    assert (p + [Digit(x)])[|p|] == Digit(x) && (q + [Digit(y)])[|q|] == Digit(y);
  }

  lemma {:induction false} PadOrder(a: nat, b: nat, width: nat)
    requires width > 0 && a < Pow10(width) && b < Pow10(width)
    ensures |Pad(a, width)| == |Pad(b, width)| == width
    ensures StrLess(Pad(a, width), Pad(b, width)) <==> a < b
    ensures Pad(a, width) == Pad(b, width) <==> a == b
  {
    if width == 1 {
      assert Pow10(1) == 10;
      assert Pad(a, 1) == [Digit(a)] && Pad(b, 1) == [Digit(b)];
      assert Digit(a) < Digit(b) <==> a < b;
    } else {
      hide Decimal, Pad, StrLess;
      PadOrder(a / 10, b / 10, width - 1);
      PadLastDigit(a, width);
      PadLastDigit(b, width);
      AppendDigitOrder(Pad(a / 10, width - 1), a % 10, Pad(b / 10, width - 1), b % 10);
    }
  }

  function Clock(second: nat): string {
    Pad((second / 3600) % 24, 2) + (":" + (Pad((second / 60) % 60, 2) + (":" + (Pad(second % 60, 2) + "Z"))))
  }

  function Format(d: Date, second: nat): string {
    Pad(d.year, 4) + ("-" + (Pad(d.month, 2) + ("-" + (Pad(d.day, 2) + ("T" + Clock(second))))))
  }

  /** The text is the timestamp of the instant: its date is the one with that day number. */
  ghost predicate IsTimestamp(second: nat, d: Date, text: string) {
    Valid(d) && DayNumber(d) == second / 86400 && text == Format(d, second)
  }

  method NowUtcIso8601(second: U64) returns (r: Result<string, DateError>, ghost d: Date)
    ensures r.Ok? ==> IsTimestamp(second, d, r.value)
    ensures r.Err? <==> second / 86400 >= DaysBeforeYear(YEAR_LIMIT)
  {
    var date := DaysToYmd(second / 86400);
    match date {
      case Ok(ymd) =>
        d := ymd;
        r := Ok(Format(ymd, second));
      case Err(e) =>
        d := Date(1970, 1, 1);
        r := Err(e);
    }
  }

  lemma FieldOrder(a: nat, b: nat, width: nat, sep: char, rest: string, rest': string)
    requires width > 0 && a < Pow10(width) && b < Pow10(width)
    ensures StrLess(Pad(a, width) + ([sep] + rest), Pad(b, width) + ([sep] + rest'))
       <==> a < b || (a == b && StrLess(rest, rest'))
  {
    PadOrder(a, b, width);
    StrLessAppend(Pad(a, width), [sep] + rest, Pad(b, width), [sep] + rest');
    StrLessAppend([sep], rest, [sep], rest');
    StrLessIrreflexive([sep]);
  }

  lemma ClockOrder(a: nat, b: nat)
    ensures StrLess(Clock(a), Clock(b)) <==> a % 86400 < b % 86400
  {
    assert Pow10(2) == 100;
    FieldOrder(a % 60, b % 60, 2, 'Z', "", "");
    assert "Z" == ['Z'] + "";
    FieldOrder((a / 60) % 60, (b / 60) % 60, 2, ':', Pad(a % 60, 2) + "Z", Pad(b % 60, 2) + "Z");
    FieldOrder((a / 3600) % 24, (b / 3600) % 24, 2, ':',
               Pad((a / 60) % 60, 2) + (":" + (Pad(a % 60, 2) + "Z")),
               Pad((b / 60) % 60, 2) + (":" + (Pad(b % 60, 2) + "Z")));
    SecondOfDay(a);
    SecondOfDay(b);
  }

  lemma SecondOfDay(s: nat)
    ensures s % 86400 == 3600 * ((s / 3600) % 24) + 60 * ((s / 60) % 60) + s % 60
  {
    assert s / 3600 == s / 60 / 60;
    assert s / 86400 == s / 3600 / 24;
  }

  /** Through year 9999 timestamps sort as strings exactly as their instants sort. */
  lemma TimestampOrder(a: nat, da: Date, ta: string, b: nat, db: Date, tb: string)
    requires IsTimestamp(a, da, ta) && IsTimestamp(b, db, tb)
    requires da.year <= 9999 && db.year <= 9999
    ensures StrLess(ta, tb) <==> a < b
    ensures ta == tb ==> a == b
  {
    assert Pow10(2) == 100 && Pow10(4) == 10000;
    var cA, cB := "T" + Clock(a), "T" + Clock(b);
    FieldOrder(da.day, db.day, 2, 'T', Clock(a), Clock(b));
    FieldOrder(da.month, db.month, 2, '-', Pad(da.day, 2) + cA, Pad(db.day, 2) + cB);
    FieldOrder(da.year, db.year, 4, '-', Pad(da.month, 2) + ("-" + (Pad(da.day, 2) + cA)),
               Pad(db.month, 2) + ("-" + (Pad(db.day, 2) + cB)));
    ClockOrder(a, b);
    DayNumberOrder(da, db);
    StrLessIrreflexive(ta);
    if b < a {
      ClockOrder(b, a);
      DayNumberOrder(db, da);
      FieldOrder(db.day, da.day, 2, 'T', Clock(b), Clock(a));
      FieldOrder(db.month, da.month, 2, '-', Pad(db.day, 2) + cB, Pad(da.day, 2) + cA);
      FieldOrder(db.year, da.year, 4, '-', Pad(db.month, 2) + ("-" + (Pad(db.day, 2) + cB)),
                 Pad(da.month, 2) + ("-" + (Pad(da.day, 2) + cA)));
    }
  }

  lemma LeadingDigit(n: nat)
    requires n >= 10
    ensures Decimal(n)[0] == Decimal(n / 10)[0] && |Decimal(n)| == |Decimal(n / 10)| + 1
  {}

  lemma LeadingDigitOfYear(year: nat)
    requires 1000 <= year <= 9999
    ensures |Decimal(year)| == 4 && Decimal(year)[0] == Digit(year / 1000)
  {
    LeadingDigit(year);
    LeadingDigit(year / 10);
    LeadingDigit(year / 100);
    assert year / 10 / 10 == year / 100 && year / 100 / 10 == year / 1000;
  }

  lemma FirstOfPadded(year: nat)
    requires 1000 <= year < 100000
    ensures |Pad(year, 4)| > 0 && Pad(year, 4)[0] == Decimal(year)[0]
  {
    hide Decimal;
    if year > 9999 {
      LeadingDigit(year);
      LeadingDigitOfYear(year / 10);
    } else {
      LeadingDigitOfYear(year);
    }
  }

  /** With a fifth digit a later timestamp can sort first. */
  lemma FiveDigitYearSortsFirst(a: nat, da: Date, ta: string, b: nat, db: Date, tb: string)
    requires IsTimestamp(a, da, ta) && IsTimestamp(b, db, tb)
    requires 2000 <= da.year <= 9999 && 10000 <= db.year < 20000
    ensures a < b && StrLess(tb, ta)
  {
    hide Decimal, Clock, Pad, DayNumber;
    DayNumberOrder(da, db);
    FirstOfPadded(da.year);
    LeadingDigit(db.year);
    FirstOfPadded(db.year);
    LeadingDigitOfYear(da.year);
    LeadingDigitOfYear(db.year / 10);
    assert ta[0] == Digit(da.year / 1000) && tb[0] == Digit(1);
  }

  /** All timestamps with years below the limit sort as strings exactly as their instants sort. */
  ghost predicate SortsBelow(limit: nat) {
    forall a: nat, da: Date, ta: string, b: nat, db: Date, tb: string ::
      IsTimestamp(a, da, ta) && IsTimestamp(b, db, tb) && da.year < limit && db.year < limit ==>
        (StrLess(ta, tb) <==> a < b)
  }

  /** Year 10000 is the exact bound. */
  lemma SortsExactlyBelow(limit: nat)
    ensures SortsBelow(limit) <==> limit <= 10000
  {
    hide IsTimestamp, StrLess;
    if limit <= 10000 {
      forall a: nat, da: Date, ta: string, b: nat, db: Date, tb: string
        | IsTimestamp(a, da, ta) && IsTimestamp(b, db, tb) && da.year < limit && db.year < limit
        ensures StrLess(ta, tb) <==> a < b
      {
        TimestampOrder(a, da, ta, b, db, tb);
      }
    } else {
      var da, db := Date(2000, 1, 1), Date(10000, 1, 1);
      var a, ta := FirstInstant(da);
      var b, tb := FirstInstant(db);
      FiveDigitYearSortsFirst(a, da, ta, b, db, tb);
      StrLessTotal(ta, tb);
    }
  }

  /** Midnight of a new year has a timestamp. */
  lemma FirstInstant(d: Date) returns (second: nat, text: string)
    requires d.year >= 1970 && d.month == d.day == 1
    ensures IsTimestamp(second, d, text)
  {
    hide Format, DaysBeforeYear, LeapsThrough;
    if d.year > 1970 {
      LaterYear(1970, d.year);
    }
    EpochIsZero();
    second, text := DayNumber(d) * 86400, Format(d, DayNumber(d) * 86400);
  }

  lemma EpochIsZero()
    ensures DaysBeforeYear(1970) == 0
  {}
}
