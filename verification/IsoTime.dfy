/** UTC instants and the text that `datetime.isoformat()` prints for them.

    The alert table stores ingest times as text and every SQL filter on them compares
    text.  This module shows that comparing the text is the same as comparing instants,
    although the printed fraction disappears when the microseconds are zero. */
module IsoTime {
  import opened Optional
  const SECOND: int := 1_000_000
  const HOUR: int := 3600 * SECOND
  const DAY: int := 24 * HOUR

  /** Days from 0001-01-01 to 10000-01-01. */
  const ALL_DAYS: int := 3652059

  /** Microseconds since 0001-01-01T00:00:00 UTC; years have four digits. */
  type Instant = t: int | 0 <= t < ALL_DAYS * DAY

  datatype Civil = Civil(year: int, month: int, day: int, hour: int, minute: int, second: int, micro: int)

  // ---------------------------------------------------------------- calendar

  predicate IsLeap(y: int) {
    y % 4 == 0 && (y % 100 != 0 || y % 400 == 0)
  }

  function DaysInMonth(y: int, m: int): (d: int)
    ensures 28 <= d <= 31
  {
    if m == 2 then (if IsLeap(y) then 29 else 28)
    else if m == 4 || m == 6 || m == 9 || m == 11 then 30
    else 31
  }

  /** Days before 1 January of year y. */
  function DaysBeforeYear(y: int): int {
    (y - 1) * 365 + (y - 1) / 4 - (y - 1) / 100 + (y - 1) / 400
  }

  /** Days of year y before the first day of month m; month 13 closes the year. */
  function DaysBeforeMonth(y: int, m: int): int
    requires 1 <= m <= 13
    decreases m
  {
    if m == 1 then 0 else DaysBeforeMonth(y, m - 1) + DaysInMonth(y, m - 1)
  }

  lemma FourthYear(y: int)
    ensures y / 4 - (y - 1) / 4 == (if y % 4 == 0 then 1 else 0)
  {
  }

  lemma HundredthYear(y: int)
    ensures y / 100 - (y - 1) / 100 == (if y % 100 == 0 then 1 else 0)
  {
  }

  lemma FourHundredthYear(y: int)
    ensures y / 400 - (y - 1) / 400 == (if y % 400 == 0 then 1 else 0)
  {
  }

  lemma Hundreds(q: int)
    ensures (400 * q) % 100 == 0
  {
  }

  lemma Fours(q: int)
    ensures (100 * q) % 4 == 0
  {
  }

  lemma YearMultiples(y: int)
    ensures (y % 400 == 0 ==> y % 100 == 0) && (y % 100 == 0 ==> y % 4 == 0)
  {
    Hundreds(y / 400);
    Fours(y / 100);
  }

  lemma YearLength(y: int)
    ensures DaysBeforeYear(y + 1) - DaysBeforeYear(y) == (if IsLeap(y) then 366 else 365)
  {
    FourthYear(y);
    HundredthYear(y);
    FourHundredthYear(y);
    YearMultiples(y);
  }

  lemma MonthsFillYear(y: int)
    ensures DaysBeforeMonth(y, 13) == (if IsLeap(y) then 366 else 365)
  {
    assert DaysBeforeMonth(y, 5) == DaysInMonth(y, 1) + DaysInMonth(y, 2) + DaysInMonth(y, 3) + DaysInMonth(y, 4) by {
      assert DaysBeforeMonth(y, 3) == DaysInMonth(y, 1) + DaysInMonth(y, 2);
    }
    assert DaysBeforeMonth(y, 9) == DaysBeforeMonth(y, 5)
      + DaysInMonth(y, 5) + DaysInMonth(y, 6) + DaysInMonth(y, 7) + DaysInMonth(y, 8) by {
      assert DaysBeforeMonth(y, 7) == DaysBeforeMonth(y, 5) + DaysInMonth(y, 5) + DaysInMonth(y, 6);
    }
    assert DaysBeforeMonth(y, 11) == DaysBeforeMonth(y, 9) + DaysInMonth(y, 9) + DaysInMonth(y, 10);
  }

  /** The year holding day n, searched downwards from y. */
  function YearOf(n: int, y: int): (r: int)
    requires 0 <= n && 1 <= y && n < DaysBeforeYear(y + 1)
    ensures 1 <= r <= y && DaysBeforeYear(r) <= n < DaysBeforeYear(r + 1)
    decreases y
  {
    if DaysBeforeYear(y) <= n then y else YearOf(n, y - 1)
  }

  /** The month holding day d of year y, searched downwards from m. */
  function MonthOf(y: int, d: int, m: int): (r: int)
    requires 1 <= m <= 12 && 0 <= d < DaysBeforeMonth(y, m + 1)
    ensures 1 <= r <= m && DaysBeforeMonth(y, r) <= d < DaysBeforeMonth(y, r + 1)
    decreases m
  {
    if DaysBeforeMonth(y, m) <= d then m else MonthOf(y, d, m - 1)
  }

  /** The date of day n, with the time of day left at midnight. */
  function DateOf(n: int): (c: Civil)
    requires 0 <= n < ALL_DAYS
    ensures 1 <= c.year <= 9999 && 1 <= c.month <= 12 && 1 <= c.day <= 31
    ensures c == Civil(c.year, c.month, c.day, 0, 0, 0, 0)
    ensures DaysBeforeYear(c.year) <= n < DaysBeforeYear(c.year + 1)
    ensures DaysBeforeMonth(c.year, c.month) <= n - DaysBeforeYear(c.year) < DaysBeforeMonth(c.year, c.month + 1)
    ensures n == DaysBeforeYear(c.year) + DaysBeforeMonth(c.year, c.month) + c.day - 1
  {
    var y := YearOf(n, 9999);
    var d := n - DaysBeforeYear(y);
    YearLength(y); MonthsFillYear(y);
    var m := MonthOf(y, d, 12);
    Civil(y, m, d - DaysBeforeMonth(y, m) + 1, 0, 0, 0, 0)
  }

  function CivilOf(t: Instant): (c: Civil)
    ensures 1 <= c.year <= 9999 && 1 <= c.month <= 12 && 1 <= c.day <= 31
    ensures 0 <= c.hour < 24 && 0 <= c.minute < 60 && 0 <= c.second < 60 && 0 <= c.micro < SECOND
  {
    var r := t % DAY;
    DateOf(t / DAY).(hour := r / HOUR, minute := r / (60 * SECOND) % 60, second := r / SECOND % 60, micro := r % SECOND)
  }

  /** The inverse of CivilOf: the number of microseconds before the civil time. */
  function MicrosOf(c: Civil): int
    requires 1 <= c.month <= 12
  {
    (DaysBeforeYear(c.year) + DaysBeforeMonth(c.year, c.month) + c.day - 1) * DAY
    + c.hour * HOUR + c.minute * (60 * SECOND) + c.second * SECOND + c.micro
  }

  /** r, a time of day, split into hours, minutes, seconds and microseconds and put together again. */
  lemma ClockSplit(r: int)
    requires 0 <= r < DAY
    ensures r / (60 * SECOND) == r / HOUR * 60 + r / (60 * SECOND) % 60
    ensures r / SECOND == r / (60 * SECOND) * 60 + r / SECOND % 60
    ensures r == r / SECOND * SECOND + r % SECOND
  {
  }

  lemma MicrosOfCivilOf(t: Instant)
    ensures MicrosOf(CivilOf(t)) == t
  {
    var n, r := t / DAY, t % DAY;
    ClockMicros(r);
    assert t == n * DAY + r;
  }

  lemma ClockMicros(r: int)
    requires 0 <= r < DAY
    ensures r / HOUR * HOUR + r / (60 * SECOND) % 60 * (60 * SECOND) + r / SECOND % 60 * SECOND + r % SECOND == r
  {
    ClockSplit(r);
  }

  // ---------------------------------------------------------------- the calendar by a closed formula

  /** Days from 0001-01-01 to a date of the Gregorian calendar, counting years from March. */
  function GregorianDay(y: int, m: int, d: int): int {
    var shifted := (m + 9) % 12;
    var year := y - shifted / 10;
    365 * year + year / 4 - year / 100 + year / 400 + (306 * shifted + 5) / 10 + d - 307
  }

  function LeapDay(y: int): int {
    if y % 4 == 0 && (y % 100 != 0 || y % 400 == 0) then 1 else 0
  }

  lemma MonthTable(y: int)
    ensures DaysBeforeMonth(y, 1) == 0 && DaysBeforeMonth(y, 2) == 31
    ensures DaysBeforeMonth(y, 3) == 59 + LeapDay(y) && DaysBeforeMonth(y, 4) == 90 + LeapDay(y)
    ensures DaysBeforeMonth(y, 5) == 120 + LeapDay(y) && DaysBeforeMonth(y, 6) == 151 + LeapDay(y)
    ensures DaysBeforeMonth(y, 7) == 181 + LeapDay(y) && DaysBeforeMonth(y, 8) == 212 + LeapDay(y)
    ensures DaysBeforeMonth(y, 9) == 243 + LeapDay(y) && DaysBeforeMonth(y, 10) == 273 + LeapDay(y)
    ensures DaysBeforeMonth(y, 11) == 304 + LeapDay(y) && DaysBeforeMonth(y, 12) == 334 + LeapDay(y)
  {
    assert DaysBeforeMonth(y, 3) == 59 + LeapDay(y);
    assert DaysBeforeMonth(y, 5) == 120 + LeapDay(y);
    assert DaysBeforeMonth(y, 7) == 181 + LeapDay(y);
    assert DaysBeforeMonth(y, 9) == 243 + LeapDay(y);
    assert DaysBeforeMonth(y, 11) == 304 + LeapDay(y);
  }

  lemma LateMonthDays(y: int, m: int)
    requires 3 <= m <= 12
    ensures DaysBeforeMonth(y, m) == (306 * (m - 3) + 5) / 10 + 59 + LeapDay(y)
  {
    hide DaysBeforeMonth, LeapDay;
    MonthTable(y);
    if m == 3 { assert (306 * 0 + 5) / 10 == 0; }
    else if m == 4 { assert (306 * 1 + 5) / 10 == 31; }
    else if m == 5 { assert (306 * 2 + 5) / 10 == 61; }
    else if m == 6 { assert (306 * 3 + 5) / 10 == 92; }
    else if m == 7 { assert (306 * 4 + 5) / 10 == 122; }
    else if m == 8 { assert (306 * 5 + 5) / 10 == 153; }
    else if m == 9 { assert (306 * 6 + 5) / 10 == 184; }
    else if m == 10 { assert (306 * 7 + 5) / 10 == 214; }
    else if m == 11 { assert (306 * 8 + 5) / 10 == 245; }
    else { assert (306 * 9 + 5) / 10 == 275; }
  }

  lemma EarlyMonth(y: int, m: int, d: int)
    requires 1 <= m <= 2
    ensures GregorianDay(y, m, d) == DaysBeforeYear(y) + (if m == 1 then 0 else 31) + d - 1
  {
    assert (m + 9) % 12 == m + 9 && (m + 9) / 10 == 1 && (306 * (m + 9) + 5) / 10 == (if m == 1 then 306 else 337);
  }

  lemma LateMonth(y: int, m: int, d: int)
    requires 3 <= m <= 12
    ensures GregorianDay(y, m, d) == DaysBeforeYear(y + 1) + (306 * (m - 3) + 5) / 10 + d - 307
  {
    assert (m + 9) % 12 == m - 3 && (m - 3) / 10 == 0;
  }

  lemma FormulaHolds(y: int, m: int, d: int)
    requires 1 <= m <= 12
    ensures GregorianDay(y, m, d) == DaysBeforeYear(y) + DaysBeforeMonth(y, m) + d - 1
  {
    assert LeapDay(y) == if IsLeap(y) then 1 else 0;
    hide DaysBeforeMonth, DaysBeforeYear, GregorianDay, IsLeap, LeapDay;
    if m <= 2 {
      MonthTable(y);
      EarlyMonth(y, m, d);
    } else {
      LateMonth(y, m, d);
      YearLength(y);
      LateMonthDays(y, m);
    }
  }

  /** The civil time of an instant in plain numbers: the date is the Gregorian one, no month is
      longer than it should be, and the clock counts microseconds in seconds, minutes and hours. */
  lemma CivilExactly(t: Instant)
    ensures var c := CivilOf(t);
            && t == GregorianDay(c.year, c.month, c.day) * 86_400_000_000
                    + c.hour * 3_600_000_000 + c.minute * 60_000_000 + c.second * 1_000_000 + c.micro
            && 1 <= c.month <= 12 && 1 <= c.day
            && c.day <= (if c.month == 2 then 28 + LeapDay(c.year)
                         else if c.month == 4 || c.month == 6 || c.month == 9 || c.month == 11 then 30 else 31)
            && 0 <= c.hour < 24 && 0 <= c.minute < 60 && 0 <= c.second < 60 && 0 <= c.micro < 1_000_000
  {
    var n := t / DAY;
    var c := DateOf(n);
    DayInMonth(n);
    FormulaHolds(c.year, c.month, c.day);
    MicrosOfCivilOf(t);
    hide GregorianDay, DateOf, DaysBeforeYear, DaysBeforeMonth;
    assert CivilOf(t).(hour := 0, minute := 0, second := 0, micro := 0) == c;
  }

  lemma DayInMonth(n: int)
    requires 0 <= n < ALL_DAYS
    ensures var c := DateOf(n);
            c.day <= (if c.month == 2 then 28 + LeapDay(c.year)
                      else if c.month == 4 || c.month == 6 || c.month == 9 || c.month == 11 then 30 else 31)
  {
    var c := DateOf(n);
    hide DateOf;
    assert DaysBeforeMonth(c.year, c.month + 1) == DaysBeforeMonth(c.year, c.month) + DaysInMonth(c.year, c.month);
  }

  predicate CivilBefore(a: Civil, b: Civil) {
    a.year < b.year || (a.year == b.year &&
    (a.month < b.month || (a.month == b.month &&
    (a.day < b.day || (a.day == b.day &&
    (a.hour < b.hour || (a.hour == b.hour &&
    (a.minute < b.minute || (a.minute == b.minute &&
    (a.second < b.second || (a.second == b.second && a.micro < b.micro)))))))))))
  }

  lemma {:induction false} YearsGrow(x: int, y: int)
    requires x <= y
    ensures DaysBeforeYear(x) <= DaysBeforeYear(y)
    decreases y - x
  {
  }

  lemma {:induction false} MonthsGrow(y: int, m: int, k: int)
    requires 1 <= m <= k <= 13
    ensures DaysBeforeMonth(y, m) <= DaysBeforeMonth(y, k)
    decreases k
  {
    if m < k { MonthsGrow(y, m, k - 1); }
  }

  /** Calendar fields, compared from the year down, are ordered like instants. */
  lemma CivilMonotone(a: Instant, b: Instant)
    requires a < b
    ensures CivilBefore(CivilOf(a), CivilOf(b))
  {
    hide DateOf;
    var m, n := a / DAY, b / DAY;
    if m == n {
      ClockMonotone(a % DAY, b % DAY);
    } else {
      DateMonotone(m, n);
    }
  }

  lemma DateMonotone(m: int, n: int)
    requires 0 <= m < n < ALL_DAYS
    ensures var c, d := DateOf(m), DateOf(n);
            c.year < d.year || (c.year == d.year && (c.month < d.month || (c.month == d.month && c.day < d.day)))
  {
    var c, d := DateOf(m), DateOf(n);
    YearsOrdered(c.year, d.year, m, n);
    if c.year == d.year {
      MonthsOrdered(c.year, c.month, d.month, m - DaysBeforeYear(c.year), n - DaysBeforeYear(c.year));
    }
  }

  lemma YearsOrdered(y: int, z: int, m: int, n: int)
    requires m < n && DaysBeforeYear(y) <= m && n < DaysBeforeYear(z + 1)
    ensures y <= z
  {
  }

  lemma MonthsOrdered(y: int, j: int, k: int, m: int, n: int)
    requires 1 <= j <= 12 && 1 <= k <= 12
    requires m < n && DaysBeforeMonth(y, j) <= m && n < DaysBeforeMonth(y, k + 1)
    ensures j <= k
  {
    if k < j { MonthsGrow(y, k + 1, j); }
  }

  lemma ClockMonotone(r: int, s: int)
    requires 0 <= r < s < DAY
    ensures CivilBefore(Civil(1, 1, 1, r / HOUR, r / (60 * SECOND) % 60, r / SECOND % 60, r % SECOND),
                        Civil(1, 1, 1, s / HOUR, s / (60 * SECOND) % 60, s / SECOND % 60, s % SECOND))
  {
    ClockSplit(r);
    ClockSplit(s);
  }

  // ---------------------------------------------------------------- text

  /** SQLite's BINARY collation on these ASCII texts: strict lexicographic order. */
  predicate Before(a: string, b: string) {
    b != [] && (a == [] || a[0] < b[0] || (a[0] == b[0] && Before(a[1..], b[1..])))
  }

  predicate AtMost(a: string, b: string) {
    !Before(b, a)
  }

  function Digit(d: int): char
    requires 0 <= d < 10
  {
    "0123456789"[d]
  }

  /** The last w decimal digits of x. */
  function Pad(w: nat, x: nat): (s: string)
    ensures |s| == w
  {
    if w == 0 then "" else Pad(w - 1, x / 10) + [Digit(x % 10)]
  }

  function Fraction(micro: nat): string {
    if micro == 0 then "" else "." + Pad(6, micro)
  }

  /** `datetime.isoformat()` of an aware UTC datetime. */
  function Print(c: Civil): string
    requires c.year >= 0 && c.month >= 0 && c.day >= 0 && c.hour >= 0 && c.minute >= 0 && c.second >= 0 && c.micro >= 0
  {
    Pad(4, c.year) + ("-" + (Pad(2, c.month) + ("-" + (Pad(2, c.day) + ("T" + (Pad(2, c.hour) + (":" +
    (Pad(2, c.minute) + (":" + (Pad(2, c.second) + (Fraction(c.micro) + "+00:00")))))))))))
  }

  function IsoFormat(t: Instant): string {
    Print(CivilOf(t))
  }

  lemma {:induction false} BeforePrefix(a: string, b: string, x: string, y: string)
    requires |a| == |b|
    ensures Before(a + x, b + y) <==> Before(a, b) || (a == b && Before(x, y))
  {
    if a == [] {
      assert a + x == x && b + y == y;
    } else {
      assert (a + x)[1..] == a[1..] + x && (b + y)[1..] == b[1..] + y;
      BeforePrefix(a[1..], b[1..], x, y);
      assert a == b <==> a[0] == b[0] && a[1..] == b[1..];
    }
  }

  lemma {:induction false} NotBeforeSelf(a: string)
    ensures !Before(a, a)
  {
    if a != [] { NotBeforeSelf(a[1..]); }
  }

  function Pow10(w: nat): nat {
    if w == 0 then 1 else 10 * Pow10(w - 1)
  }

  lemma {:induction false} PadOrder(w: nat, x: nat, y: nat)
    requires x < Pow10(w) && y < Pow10(w)
    ensures Before(Pad(w, x), Pad(w, y)) <==> x < y
    ensures Pad(w, x) == Pad(w, y) <==> x == y
  {
    if w > 0 {
      PadOrder(w - 1, x / 10, y / 10);
      var d, e := [Digit(x % 10)], [Digit(y % 10)];
      BeforePrefix(Pad(w - 1, x / 10), Pad(w - 1, y / 10), d, e);
      assert Before(d, e) <==> x % 10 < y % 10;
      assert Pad(w, x)[..w - 1] == Pad(w - 1, x / 10) && Pad(w, y)[..w - 1] == Pad(w - 1, y / 10);
      assert Pad(w, x)[w - 1] == d[0] && Pad(w, y)[w - 1] == e[0];
    }
  }

  /** Two fixed-width fields followed by anything compare field first. */
  lemma FieldOrder(w: nat, x: nat, y: nat, r: string, s: string)
    requires x < Pow10(w) && y < Pow10(w)
    ensures Before(Pad(w, x) + r, Pad(w, y) + s) <==> x < y || (x == y && Before(r, s))
  {
    PadOrder(w, x, y);
    BeforePrefix(Pad(w, x), Pad(w, y), r, s);
  }

  lemma Shared(c: string, r: string, s: string)
    requires |c| == 1
    ensures Before(c + r, c + s) <==> Before(r, s)
  {
  }

  /** '+' sorts before '.', so a missing fraction sorts below every present one. */
  lemma FractionOrder(x: nat, y: nat)
    requires x < SECOND && y < SECOND
    ensures Before(Fraction(x) + "+00:00", Fraction(y) + "+00:00") <==> x < y
  {
    assert Pow10(6) == SECOND;
    if x != 0 && y != 0 {
      FieldOrder(6, x, y, "+00:00", "+00:00");
      Shared(".", Pad(6, x) + "+00:00", Pad(6, y) + "+00:00");
      assert Fraction(x) + "+00:00" == "." + (Pad(6, x) + "+00:00");
      assert Fraction(y) + "+00:00" == "." + (Pad(6, y) + "+00:00");
      NotBeforeSelf("+00:00");
    } else if x == 0 && y == 0 {
      assert Fraction(x) + "+00:00" == "+00:00";
      NotBeforeSelf("+00:00");
    }
  }

  function ClockText(c: Civil): string
    requires c.hour >= 0 && c.minute >= 0 && c.second >= 0 && c.micro >= 0
  {
    Pad(2, c.hour) + (":" + (Pad(2, c.minute) + (":" + (Pad(2, c.second) + (Fraction(c.micro) + "+00:00")))))
  }

  lemma ClockTextOrder(a: Civil, b: Civil)
    requires 0 <= a.hour < 24 && 0 <= a.minute < 60 && 0 <= a.second < 60 && 0 <= a.micro < SECOND
    requires 0 <= b.hour < 24 && 0 <= b.minute < 60 && 0 <= b.second < 60 && 0 <= b.micro < SECOND
    ensures Before(ClockText(a), ClockText(b)) <==>
            CivilBefore(a.(year := 1, month := 1, day := 1), b.(year := 1, month := 1, day := 1))
  {
    assert Pow10(2) == 100;
    var fa, fb := Fraction(a.micro) + "+00:00", Fraction(b.micro) + "+00:00";
    FractionOrder(a.micro, b.micro);
    FieldOrder(2, a.second, b.second, fa, fb);
    var sa, sb := Pad(2, a.second) + fa, Pad(2, b.second) + fb;
    Shared(":", sa, sb);
    FieldOrder(2, a.minute, b.minute, ":" + sa, ":" + sb);
    var ma, mb := Pad(2, a.minute) + (":" + sa), Pad(2, b.minute) + (":" + sb);
    Shared(":", ma, mb);
    FieldOrder(2, a.hour, b.hour, ":" + ma, ":" + mb);
  }

  lemma PrintOrder(a: Instant, b: Instant)
    ensures Before(IsoFormat(a), IsoFormat(b)) <==> CivilBefore(CivilOf(a), CivilOf(b))
  {
    var c, d := CivilOf(a), CivilOf(b);
    assert Pow10(2) == 100 && Pow10(4) == 10000;
    var ca, cb := ClockText(c), ClockText(d);
    ClockTextOrder(c, d);
    Shared("T", ca, cb);
    FieldOrder(2, c.day, d.day, "T" + ca, "T" + cb);
    var da, db := Pad(2, c.day) + ("T" + ca), Pad(2, d.day) + ("T" + cb);
    Shared("-", da, db);
    FieldOrder(2, c.month, d.month, "-" + da, "-" + db);
    var ma, mb := Pad(2, c.month) + ("-" + da), Pad(2, d.month) + ("-" + db);
    Shared("-", ma, mb);
    FieldOrder(4, c.year, d.year, "-" + ma, "-" + mb);
  }

  /** Main result: text order of printed instants is time order. */
  lemma TextOrderIsTimeOrder(a: Instant, b: Instant)
    ensures Before(IsoFormat(a), IsoFormat(b)) <==> a < b
    ensures AtMost(IsoFormat(a), IsoFormat(b)) <==> a <= b
  {
    hide IsoFormat, CivilOf;
    PrintOrder(a, b);
    PrintOrder(b, a);
    if a < b {
      CivilMonotone(a, b);
    } else if b < a {
      CivilMonotone(b, a);
    }
  }

  // ---------------------------------------------------------------- parsing

  predicate IsDigit(c: char) {
    '0' <= c <= '9'
  }

  /** The number a digit string denotes, or None when some character is not a digit. */
  function ReadNumber(s: string): (r: Option<nat>) {
    if s == [] then Some(0)
    else
      var rest := ReadNumber(s[..|s| - 1]);
      var c := s[|s| - 1];
      if rest.None? || !IsDigit(c) then None else Some(rest.value * 10 + (c as int - '0' as int))
  }

  predicate ValidCivil(c: Civil) {
    && 1 <= c.year <= 9999 && 1 <= c.month <= 12 && 1 <= c.day <= DaysInMonth(c.year, c.month)
    && 0 <= c.hour < 24 && 0 <= c.minute < 60 && 0 <= c.second < 60 && 0 <= c.micro < SECOND
  }

  lemma DayNumberInRange(y: int, m: int, d: int)
    requires 1 <= y <= 9999 && 1 <= m <= 12 && 1 <= d <= DaysInMonth(y, m)
    ensures 0 <= DaysBeforeYear(y) + DaysBeforeMonth(y, m) + d - 1 < ALL_DAYS
  {
    assert DaysBeforeYear(y) >= 0 by { YearsGrow(1, y); }
    assert DaysBeforeYear(y + 1) <= ALL_DAYS by { YearsGrow(y + 1, 10000); }
    YearLength(y);
    MonthsFillYear(y);
    MonthsGrow(y, 1, m);
    MonthsGrow(y, m + 1, 13);
  }

  lemma ValidCivilInRange(c: Civil)
    requires ValidCivil(c)
    ensures 0 <= MicrosOf(c) < ALL_DAYS * DAY
  {
    DayNumberInRange(c.year, c.month, c.day);
    var n := DaysBeforeYear(c.year) + DaysBeforeMonth(c.year, c.month) + c.day - 1;
    TimeInRange(n, c.hour, c.minute, c.second, c.micro);
  }

  lemma TimeInRange(n: int, h: int, m: int, s: int, u: int)
    requires 0 <= n < ALL_DAYS && 0 <= h < 24 && 0 <= m < 60 && 0 <= s < 60 && 0 <= u < SECOND
    ensures 0 <= n * DAY + h * HOUR + m * (60 * SECOND) + s * SECOND + u < ALL_DAYS * DAY
  {
  }

  /** `datetime.fromisoformat` on the shapes that `isoformat` prints for UTC. */
  function Parse(s: string): (r: Option<Instant>) {
    if |s| != 25 && |s| != 32 then None
    else if s[4] != '-' || s[7] != '-' || s[10] != 'T' || s[13] != ':' || s[16] != ':' || s[|s| - 6..] != "+00:00" then None
    else if |s| == 32 && s[19] != '.' then None
    else
      var y, m, d := ReadNumber(s[0..4]), ReadNumber(s[5..7]), ReadNumber(s[8..10]);
      var h, mi, sec := ReadNumber(s[11..13]), ReadNumber(s[14..16]), ReadNumber(s[17..19]);
      var us := if |s| == 32 then ReadNumber(s[20..26]) else Some(0);
      if y.None? || m.None? || d.None? || h.None? || mi.None? || sec.None? || us.None? then None
      else
        var c := Civil(y.value, m.value, d.value, h.value, mi.value, sec.value, us.value);
        if !ValidCivil(c) then None
        else
          ValidCivilInRange(c);
          Some(MicrosOf(c))
  }

  lemma {:induction false} ReadPad(w: nat, x: nat)
    requires x < Pow10(w)
    ensures ReadNumber(Pad(w, x)) == Some(x)
  {
    if w > 0 {
      ReadPad(w - 1, x / 10);
      assert Pad(w, x)[..w - 1] == Pad(w - 1, x / 10);
    }
  }

  /** Steps over one field and its separator. */
  lemma FieldAt(p: string, f: string, sep: string, rest: string)
    requires |sep| == 1
    ensures var s := p + (f + (sep + rest));
            s == (p + f + sep) + rest && s[|p|..|p| + |f|] == f && s[|p| + |f|] == sep[0]
  {
  }

  /** Where each field of a printed instant sits. */
  lemma DateLayout(y: string, m: string, d: string, rest: string)
    requires |y| == 4 && |m| == 2 && |d| == 2
    ensures var s := y + ("-" + (m + ("-" + (d + ("T" + rest)))));
            && |s| == 11 + |rest| && s[11..] == rest && s[0..4] == y && s[5..7] == m && s[8..10] == d
            && s[4] == '-' && s[7] == '-' && s[10] == 'T'
  {
    FieldAt("", y, "-", m + ("-" + (d + ("T" + rest))));
    FieldAt(y + "-", m, "-", d + ("T" + rest));
    FieldAt(y + "-" + m + "-", d, "T", rest);
  }

  lemma ClockLayout(h: string, m: string, sec: string, tail: string)
    requires |h| == 2 && |m| == 2 && |sec| == 2
    ensures var s := h + (":" + (m + (":" + (sec + tail))));
            && |s| == 8 + |tail| && s[8..] == tail && s[0..2] == h && s[3..5] == m && s[6..8] == sec
            && s[2] == ':' && s[5] == ':'
  {
    FieldAt("", h, ":", m + (":" + (sec + tail)));
    FieldAt(h + ":", m, ":", sec + tail);
    var p := h + ":" + m + ":";
    assert h + (":" + (m + (":" + (sec + tail)))) == p + (sec + tail);
  }

  /** Where part of a text lies in the whole. */
  lemma PartAt(s: string, k: nat, a: nat, b: nat)
    requires k + b <= |s| && a <= b
    ensures s[k..][a..b] == s[k + a..k + b] && (a < b ==> s[k..][a] == s[k + a])
  {
  }

  lemma PrintLayout(c: Civil)
    requires ValidCivil(c)
    ensures var s := Print(c);
            && |s| == (if c.micro == 0 then 25 else 32)
            && s[0..4] == Pad(4, c.year) && s[5..7] == Pad(2, c.month) && s[8..10] == Pad(2, c.day)
            && s[11..13] == Pad(2, c.hour) && s[14..16] == Pad(2, c.minute) && s[17..19] == Pad(2, c.second)
            && (c.micro != 0 ==> s[19] == '.' && s[20..26] == Pad(6, c.micro))
            && s[4] == '-' && s[7] == '-' && s[10] == 'T' && s[13] == ':' && s[16] == ':' && s[|s| - 6..] == "+00:00"
  {
    var s := Print(c);
    var tail := Fraction(c.micro) + "+00:00";
    var clock := Pad(2, c.hour) + (":" + (Pad(2, c.minute) + (":" + (Pad(2, c.second) + tail))));
    assert s == Pad(4, c.year) + ("-" + (Pad(2, c.month) + ("-" + (Pad(2, c.day) + ("T" + clock)))));
    TailLayout(c.micro);
    PadLengths(c);
    hide Print, Pad, Fraction;
    DateLayout(Pad(4, c.year), Pad(2, c.month), Pad(2, c.day), clock);
    ClockLayout(Pad(2, c.hour), Pad(2, c.minute), Pad(2, c.second), tail);
    ClockInside(s, clock, tail);
    assert s[|s| - 6..] == s[19..][|tail| - 6..];
    if c.micro != 0 { PartAt(s, 19, 0, 1); PartAt(s, 19, 1, 7); }
  }

  lemma PadLengths(c: Civil)
    requires ValidCivil(c)
    ensures |Pad(4, c.year)| == 4 && |Pad(2, c.month)| == 2 && |Pad(2, c.day)| == 2
    ensures |Pad(2, c.hour)| == 2 && |Pad(2, c.minute)| == 2 && |Pad(2, c.second)| == 2
  {
  }

  lemma ClockInside(s: string, clock: string, tail: string)
    requires |s| == 11 + |clock| && s[11..] == clock && |clock| == 8 + |tail| && clock[8..] == tail
    ensures s[11..13] == clock[0..2] && s[14..16] == clock[3..5] && s[17..19] == clock[6..8]
    ensures s[13] == clock[2] && s[16] == clock[5] && s[19..] == tail
  {
    PartAt(s, 11, 0, 2);
    PartAt(s, 11, 2, 3);
    PartAt(s, 11, 3, 5);
    PartAt(s, 11, 5, 6);
    PartAt(s, 11, 6, 8);
  }

  lemma TailLayout(micro: nat)
    requires micro < SECOND
    ensures var t := Fraction(micro) + "+00:00";
            && |t| == (if micro == 0 then 6 else 13) && t[|t| - 6..] == "+00:00"
            && (micro != 0 ==> t[0] == '.' && t[1..7] == Pad(6, micro))
  {
  }

  lemma CivilOfIsValid(t: Instant)
    ensures ValidCivil(CivilOf(t))
  {
  }

  /** Parsing undoes printing, for every instant. */
  lemma ParseIsoFormat(t: Instant)
    ensures Parse(IsoFormat(t)) == Some(t)
  {
    hide Parse, Print, CivilOf, MicrosOf;
    CivilOfIsValid(t);
    MicrosOfCivilOf(t);
    ParsePrint(CivilOf(t));
  }

  lemma FieldsRead(c: Civil)
    requires ValidCivil(c)
    ensures ReadNumber(Pad(4, c.year)) == Some(c.year) && ReadNumber(Pad(2, c.month)) == Some(c.month)
    ensures ReadNumber(Pad(2, c.day)) == Some(c.day) && ReadNumber(Pad(2, c.hour)) == Some(c.hour)
    ensures ReadNumber(Pad(2, c.minute)) == Some(c.minute) && ReadNumber(Pad(2, c.second)) == Some(c.second)
    ensures ReadNumber(Pad(6, c.micro)) == Some(c.micro)
  {
    assert Pow10(2) == 100 && Pow10(4) == 10000 && Pow10(6) == SECOND;
    hide Pad, ReadNumber, Pow10;
    ReadPad(4, c.year);
    ReadPad(2, c.month);
    ReadPad(2, c.day);
    ReadPad(2, c.hour);
    ReadPad(2, c.minute);
    ReadPad(2, c.second);
    ReadPad(6, c.micro);
  }

  lemma ParsePrint(c: Civil)
    requires ValidCivil(c)
    ensures 0 <= MicrosOf(c) < ALL_DAYS * DAY && Parse(Print(c)) == Some(MicrosOf(c))
  {
    hide Print, Pad, ReadNumber, MicrosOf;
    ValidCivilInRange(c);
    PrintLayout(c);
    FieldsRead(c);
  }

  // ---------------------------------------------------------------- the daily reset

  /** `now.replace(hour=h, minute=0, second=0, microsecond=0)`. */
  function ResetTime(now: Instant, h: nat): (r: Instant)
    requires h < 24
    ensures r / DAY == now / DAY && r % DAY == h * HOUR
  {
    assert 0 <= now / DAY < ALL_DAYS;
    now / DAY * DAY + h * HOUR
  }

  lemma ResetTimeReplacesClock(now: Instant, h: nat)
    requires h < 24
    ensures CivilOf(ResetTime(now, h)) == CivilOf(now).(hour := h, minute := 0, second := 0, micro := 0)
  {
    WholeHour(h);
  }

  lemma WholeHour(h: nat)
    requires h < 24
    ensures var r := h * HOUR;
            r / HOUR == h && r / (60 * SECOND) % 60 == 0 && r / SECOND % 60 == 0 && r % SECOND == 0
  {
  }
}
