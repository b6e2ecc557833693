/**
 The proleptic Gregorian dates of Python's `datetime.date`, restricted to what
 the snooze record needs: `isoformat()`, `fromisoformat()` for the
 `YYYY-MM-DD` form, and `toordinal()`, the day number that date subtraction
 takes the difference of.
 */
module Calendar {
  import opened Wrappers
  import opened Digits

  const MinYear: nat := 1
  const MaxYear: nat := 9999

  datatype Date = Date(year: nat, month: nat, day: nat)

  predicate IsLeap(y: nat) {
    y % 4 == 0 && (y % 100 != 0 || y % 400 == 0)
  }

  function DaysInMonth(y: nat, m: nat): (n: nat)
    requires 1 <= m <= 12
    ensures 28 <= n <= 31
  {
    if m == 2 then (if IsLeap(y) then 29 else 28)
    else if m == 4 || m == 6 || m == 9 || m == 11 then 30
    else 31
  }

  /** The dates `datetime.date` can represent; anything else raises `ValueError`. */
  predicate Valid(d: Date) {
    && MinYear <= d.year <= MaxYear
    && 1 <= d.month <= 12
    && 1 <= d.day <= DaysInMonth(d.year, d.month)
  }

  function DaysBeforeYear(y: nat): int
    requires y >= 1
  {
    var p := y - 1;
    p * 365 + p / 4 - p / 100 + p / 400
  }

  /** Days in the months of year `y` before month `m`. */
  function DaysBeforeMonth(y: nat, m: nat): nat
    requires 1 <= m <= 13
  {
    if m == 1 then 0 else DaysBeforeMonth(y, m - 1) + DaysInMonth(y, m - 1)
  }

  /** `date.toordinal()`: 0001-01-01 is day 1. */
  function ToOrdinal(d: Date): int
    requires Valid(d)
  {
    DaysBeforeYear(d.year) + DaysBeforeMonth(d.year, d.month) + d.day
  }

  /** `(later - earlier).days`. */
  function DaysBetween(later: Date, earlier: Date): int
    requires Valid(later) && Valid(earlier)
  {
    ToOrdinal(later) - ToOrdinal(earlier)
  }

  /** `date.isoformat()`: `YYYY-MM-DD`, each field zero padded. */
  function IsoFormat(d: Date): (s: string)
    ensures |s| == 10 && s[4] == '-' && s[7] == '-'
  {
    Fixed(d.year, 4) + "-" + Fixed(d.month, 2) + "-" + Fixed(d.day, 2)
  }

  /** `date.fromisoformat(s)` for the `YYYY-MM-DD` form; `None` is `ValueError`. */
  function FromIsoFormat(s: string): (r: Option<Date>)
    ensures r.Some? ==> Valid(r.value)
  {
    if |s| != 10 || s[4] != '-' || s[7] != '-'
       || !AllDigits(s[..4]) || !AllDigits(s[5..7]) || !AllDigits(s[8..])
    then None
    else
      var d := Date(Value(s[..4]), Value(s[5..7]), Value(s[8..]));
      if Valid(d) then Some(d) else None
  }

  /** What `isoformat` writes, `fromisoformat` reads back. */
  lemma IsoRoundTrip(d: Date)
    requires Valid(d)
    ensures FromIsoFormat(IsoFormat(d)) == Some(d)
  {
    var s := IsoFormat(d);
    assert s[..4] == Fixed(d.year, 4);
    assert s[5..7] == Fixed(d.month, 2);
    assert s[8..] == Fixed(d.day, 2);
    assert Pow10(4) == 10000 && Pow10(2) == 100;
    FixedValue(d.year, 4);
    FixedValue(d.month, 2);
    FixedValue(d.day, 2);
  }

  /** Only the canonical text parses: a record that reads as `d` is exactly `d.isoformat()`. */
  lemma IsoCanonical(s: string, d: Date)
    requires FromIsoFormat(s) == Some(d)
    ensures IsoFormat(d) == s
  {
    FixedOfValue(s[..4]);
    FixedOfValue(s[5..7]);
    FixedOfValue(s[8..]);
    assert s == s[..4] + "-" + s[5..7] + "-" + s[8..];
  }

  /** Rendering a digit string's value at its own width gives the string back. */
  lemma {:induction false} FixedOfValue(t: string)
    requires AllDigits(t)
    ensures Fixed(Value(t), |t|) == t
    decreases |t|
  {
    if |t| > 0 {
      var n := |t| - 1;
      var v := Value(t);
      assert v == Value(t[..n]) * 10 + DigitValue(t[n]);
      assert v / 10 == Value(t[..n]) && v % 10 == DigitValue(t[n]);
      FixedOfValue(t[..n]);
      assert DigitChar(DigitValue(t[n])) == t[n];
      assert t == t[..n] + [t[n]];
    }
  }

  // ---------------------------------------------------------------------------
  // Day numbers follow the calendar.
  // ---------------------------------------------------------------------------

  /** `a` falls strictly before `b` in the calendar. */
  predicate Before(a: Date, b: Date) {
    || a.year < b.year
    || (a.year == b.year && a.month < b.month)
    || (a.year == b.year && a.month == b.month && a.day < b.day)
  }

  function DaysInYear(y: nat): nat {
    if IsLeap(y) then 366 else 365
  }

  lemma DaysBeforeMonthMonotone(y: nat, m: nat, m': nat)
    requires 1 <= m <= m' <= 13
    ensures DaysBeforeMonth(y, m) <= DaysBeforeMonth(y, m')
    decreases m' - m
  {
  }

  lemma WholeYear(y: nat)
    ensures DaysBeforeMonth(y, 13) == DaysInYear(y)
  {
    var feb := DaysInMonth(y, 2);
    assert DaysBeforeMonth(y, 2) == 31;
    assert DaysBeforeMonth(y, 3) == 31 + feb;
    assert DaysBeforeMonth(y, 5) == 31 + feb + 61;
    assert DaysBeforeMonth(y, 7) == 31 + feb + 122;
    assert DaysBeforeMonth(y, 9) == 31 + feb + 184;
    assert DaysBeforeMonth(y, 11) == 31 + feb + 245;
    assert DaysBeforeMonth(y, 13) == 31 + feb + 306;
  }

  /** The leap-day count of `DaysBeforeYear` grows by one exactly across a leap year. */
  lemma NextYear(y: nat)
    requires y >= 1
    ensures DaysBeforeYear(y + 1) == DaysBeforeYear(y) + DaysInYear(y)
  {
    var p := y - 1;
    assert (p + 1) / 4 == p / 4 + (if y % 4 == 0 then 1 else 0);
    assert (p + 1) / 100 == p / 100 + (if y % 100 == 0 then 1 else 0);
    assert (p + 1) / 400 == p / 400 + (if y % 400 == 0 then 1 else 0);
    if y % 400 == 0 {
      assert y % 100 == 0 && y % 4 == 0;
    } else if y % 100 == 0 {
      assert y % 4 == 0;
    } else if y % 4 != 0 {
      assert y % 100 != 0;
    }
  }

  /** A valid date of year `y` has a day number below the first day of any later year. */
  lemma {:induction false} YearBound(d: Date, y': nat)
    requires Valid(d) && d.year < y'
    ensures ToOrdinal(d) <= DaysBeforeYear(y')
    decreases y' - d.year
  {
    if y' == d.year + 1 {
      DaysBeforeMonthMonotone(d.year, d.month + 1, 13);
      WholeYear(d.year);
      NextYear(d.year);
    } else {
      YearBound(d, y' - 1);
      NextYear(y' - 1);
    }
  }

  /** Day numbers are strictly increasing in calendar order, so the age of a later date is positive. */
  lemma OrdinalOrder(a: Date, b: Date)
    requires Valid(a) && Valid(b) && Before(a, b)
    ensures ToOrdinal(a) < ToOrdinal(b)
  {
    if a.year < b.year {
      YearBound(a, b.year);
    } else if a.month < b.month {
      DaysBeforeMonthMonotone(a.year, a.month + 1, b.month);
    }
  }

  /** The day difference is zero exactly on the same date and otherwise has the sign of the calendar order. */
  lemma DaysBetweenSign(later: Date, earlier: Date)
    requires Valid(later) && Valid(earlier)
    ensures DaysBetween(later, earlier) == 0 <==> later == earlier
    ensures DaysBetween(later, earlier) > 0 <==> Before(earlier, later)
  {
    if Before(earlier, later) {
      OrdinalOrder(earlier, later);
    } else if Before(later, earlier) {
      OrdinalOrder(later, earlier);
    }
  }
}
