/** Local calendar time. An instant is a count of milliseconds since
    1970-01-01 00:00 local time, so the local calendar day of an instant is
    its whole number of days since then, read through the Gregorian calendar.
    The due date the loan form offers is a calendar date; the loan stores it
    as that date at 12:00 local time. */
module Calendar {
  import opened Types
  import opened Text

  const MsPerHour: nat := 3600000
  const MsPerDay: nat := 86400000
  const FirstYear: int := 1970

  datatype Date = Date(year: int, month: int, day: int)

  predicate IsLeap(y: int) {
    y % 4 == 0 && (y % 100 != 0 || y % 400 == 0)
  }

  /** Length of month `m` in a leap (`leap`) or common year. */
  function DaysInMonth(leap: bool, m: int): (r: nat)
    ensures 28 <= r <= 31
  {
    if m == 2 then (if leap then 29 else 28)
    else if m == 4 || m == 6 || m == 9 || m == 11 then 30
    else 31
  }

  /** Days of the year before month `m` starts; month 13 is the next year. */
  function DaysBeforeMonth(leap: bool, m: int): nat
    requires 1 <= m <= 13
  {
    var extra := if leap && m > 2 then 1 else 0;
    [0, 31, 59, 90, 120, 151, 181, 212, 243, 273, 304, 334, 365][m - 1] + extra
  }

  /** Each month starts where the previous one ends. */
  lemma MonthStep(leap: bool, m: int)
    requires 1 <= m <= 12
    ensures DaysBeforeMonth(leap, m + 1) == DaysBeforeMonth(leap, m) + DaysInMonth(leap, m)
  {
  }

  /** Later months start later. */
  lemma {:induction false} MonthsIncrease(leap: bool, a: int, b: int)
    requires 1 <= a < b <= 13
    ensures DaysBeforeMonth(leap, a) < DaysBeforeMonth(leap, b)
    decreases b - a
  {
    MonthStep(leap, a);
    if a + 1 < b {
      MonthsIncrease(leap, a + 1, b);
    }
  }

  function DaysInYear(y: int): nat {
    if IsLeap(y) then 366 else 365
  }

  /** Days in years `y0` up to, not including, `y`. */
  function DaysOfYears(y0: int, y: int): nat
    requires y0 <= y
    decreases y - y0
  {
    if y0 == y then 0 else DaysInYear(y0) + DaysOfYears(y0 + 1, y)
  }

  predicate ValidDate(d: Date) {
    FirstYear <= d.year && 1 <= d.month <= 12 && 1 <= d.day <= DaysInMonth(IsLeap(d.year), d.month)
  }

  /** Days from 1970-01-01 to `d`. */
  function DayNumber(d: Date): nat
    requires ValidDate(d)
  {
    DaysOfYears(FirstYear, d.year) + DaysBeforeMonth(IsLeap(d.year), d.month) + d.day - 1
  }

  /** The year in which day `n` (counted from the start of year `y`) falls,
      and the day's offset within that year. */
  function YearOf(n: nat, y: int): (r: (int, nat))
    ensures y <= r.0 && r.1 < DaysInYear(r.0)
    ensures n == DaysOfYears(y, r.0) + r.1
    decreases n
  {
    if n < DaysInYear(y) then (y, n) else YearOf(n - DaysInYear(y), y + 1)
  }

  /** The month, from `m` on, in which day `n` of the year falls. */
  function MonthOf(leap: bool, n: nat, m: int): (r: int)
    requires 1 <= m <= 12 && DaysBeforeMonth(leap, m) <= n < DaysBeforeMonth(leap, 13)
    ensures m <= r <= 12 && DaysBeforeMonth(leap, r) <= n < DaysBeforeMonth(leap, r + 1)
    decreases 12 - m
  {
    if n < DaysBeforeMonth(leap, m + 1) then m else MonthOf(leap, n, m + 1)
  }

  /** Only one month contains a given day of the year. */
  lemma MonthUnique(leap: bool, n: nat, a: int, b: int)
    requires 1 <= a <= 12 && DaysBeforeMonth(leap, a) <= n < DaysBeforeMonth(leap, a + 1)
    requires 1 <= b <= 12 && DaysBeforeMonth(leap, b) <= n < DaysBeforeMonth(leap, b + 1)
    ensures a == b
  {
    if a < b {
      if a + 1 < b {
        MonthsIncrease(leap, a + 1, b);
      }
    } else if b < a {
      if b + 1 < a {
        MonthsIncrease(leap, b + 1, a);
      }
    }
  }

  /** The calendar date of day number `n`: always a valid date. */
  function DateOfDay(n: nat): (r: Date)
    ensures ValidDate(r)
  {
    var yr := YearOf(n, FirstYear);
    var leap := IsLeap(yr.0);
    var m := MonthOf(leap, yr.1, 1);
    MonthStep(leap, m);
    Date(yr.0, m, yr.1 - DaysBeforeMonth(leap, m) + 1)
  }

  lemma {:induction false} YearOfDays(y0: int, y: int, rest: nat)
    requires y0 <= y && rest < DaysInYear(y)
    ensures YearOf(DaysOfYears(y0, y) + rest, y0) == (y, rest)
    decreases y - y0
  {
    if y0 < y {
      var n := DaysOfYears(y0, y) + rest;
      assert n == DaysInYear(y0) + (DaysOfYears(y0 + 1, y) + rest);
      YearOfDays(y0 + 1, y, rest);
    }
  }

  /** Day numbers and dates are inverse: a date survives the round trip. */
  lemma DateOfDayNumber(d: Date)
    requires ValidDate(d)
    ensures DateOfDay(DayNumber(d)) == d
  {
    var leap := IsLeap(d.year);
    var rest := DaysBeforeMonth(leap, d.month) + d.day - 1;
    MonthStep(leap, d.month);
    if d.month < 12 {
      MonthsIncrease(leap, d.month + 1, 13);
    }
    assert rest < DaysInYear(d.year);
    YearOfDays(FirstYear, d.year, rest);
    var yr := YearOf(DayNumber(d), FirstYear);
    assert yr == (d.year, rest);
    var m := MonthOf(leap, rest, 1);
    MonthUnique(leap, rest, m, d.month);
  }

  /** Different dates have different day numbers. */
  lemma DayNumberInjective(a: Date, b: Date)
    requires ValidDate(a) && ValidDate(b) && DayNumber(a) == DayNumber(b)
    ensures a == b
  {
    DateOfDayNumber(a);
    DateOfDayNumber(b);
  }

  /** Two instants fall on the same local date exactly when they fall on the
      same day. */
  lemma SameDateIffSameDay(a: Instant, b: Instant)
    ensures LocalDate(a) == LocalDate(b) <==> a / MsPerDay == b / MsPerDay
  {
  }

  /** `new Date(date + 'T12:00:00')`: the chosen day at 12:00 local time. */
  function NoonOf(d: Date): (t: Instant)
    requires ValidDate(d)
    ensures t / MsPerDay == DayNumber(d)
    ensures t % MsPerDay == 12 * MsPerHour
  {
    DayNumber(d) * MsPerDay + 12 * MsPerHour
  }

  /** The local calendar date of an instant (`getFullYear`, `getMonth() + 1`,
      `getDate()`). */
  function LocalDate(t: Instant): (r: Date)
    ensures ValidDate(r) && DayNumber(r) == t / MsPerDay
  {
    var r := DateOfDay(t / MsPerDay);
    DayNumberOfDate(t / MsPerDay);
    r
  }

  /** Every day number is the day number of its date. */
  lemma DayNumberOfDate(n: nat)
    ensures DayNumber(DateOfDay(n)) == n
  {
  }

  /** A date stored at noon is read back as the same local date. */
  lemma LocalDateOfNoon(d: Date)
    requires ValidDate(d)
    ensures LocalDate(NoonOf(d)) == d
  {
    DateOfDayNumber(d);
  }

  /** `today.setHours(0, 0, 0, 0)`: local midnight at the start of the day
      of `now`. */
  function StartOfDay(now: Instant): (t: Instant)
    ensures t <= now < t + MsPerDay
    ensures t % MsPerDay == 0 && t / MsPerDay == now / MsPerDay
  {
    (now / MsPerDay) * MsPerDay
  }

  /** `${y}-${pad2(m)}-${pad2(d)}`, the value format of a date input; it
      relies only on the field ranges, which every valid date is within. */
  function FormatDate(d: Date): (s: string)
    requires FirstYear <= d.year && 1 <= d.month <= 12 && 1 <= d.day <= 31
    ensures |s| == |NatToString(d.year as nat)| + 6
    ensures s[..|s| - 6] == NatToString(d.year as nat)
    ensures s[|s| - 6] == '-' && s[|s| - 5..|s| - 3] == Pad2(d.month as nat)
    ensures s[|s| - 3] == '-' && s[|s| - 2..] == Pad2(d.day as nat)
  {
    Pad2Length(d.month as nat);
    Pad2Length(d.day as nat);
    JoinDate(NatToString(d.year as nat), Pad2(d.month as nat), Pad2(d.day as nat))
  }

  /** `year` + "-" + `pm` + "-" + `pd`, and where each part sits. */
  function JoinDate(year: string, pm: string, pd: string): (s: string)
    requires |pm| == 2 && |pd| == 2
    ensures |s| == |year| + 6 && s[..|s| - 6] == year
    ensures s[|s| - 6] == '-' && s[|s| - 5..|s| - 3] == pm
    ensures s[|s| - 3] == '-' && s[|s| - 2..] == pd
  {
    DashedSlices(pm, pd);
    TailSlices(year, "-" + pm + "-" + pd);
    year + ("-" + pm + "-" + pd)
  }

  /** Where the parts of a six-character tail sit after a prefix. */
  lemma TailSlices(x: string, t: string)
    requires |t| == 6
    ensures var s := x + t; |s| == |x| + 6 && s[..|s| - 6] == x
    ensures var s := x + t; s[|s| - 6] == t[0] && s[|s| - 5..|s| - 3] == t[1..3]
    ensures var s := x + t; s[|s| - 3] == t[3] && s[|s| - 2..] == t[4..]
  {
    var s := x + t;
    assert s[..|x|] == x && s[|x|..] == t;
  }

  /** Two valid dates print the same only if they are the same date. */
  lemma FormatDateInjective(a: Date, b: Date)
    requires ValidDate(a) && ValidDate(b)
    requires FormatDate(a) == FormatDate(b)
    ensures a == b
  {
    var ta, tb := DateTail(a), DateTail(b);
    SplitAt(NatToString(a.year as nat), ta, NatToString(b.year as nat), tb);
    NatToStringInjective(a.year as nat, b.year as nat);
    DateTailInjective(a.month as nat, a.day as nat, b.month as nat, b.day as nat);
  }

  lemma DateTailInjective(ma: nat, da: nat, mb: nat, db: nat)
    requires ma < 100 && da < 100 && mb < 100 && db < 100
    requires "-" + Pad2(ma) + "-" + Pad2(da) == "-" + Pad2(mb) + "-" + Pad2(db)
    ensures ma == mb && da == db
  {
    var pma, pda, pmb, pdb := Pad2(ma), Pad2(da), Pad2(mb), Pad2(db);
    Pad2Length(ma);
    Pad2Length(da);
    Pad2Length(mb);
    Pad2Length(db);
    SplitAt("-" + pma + "-", pda, "-" + pmb + "-", pdb);
    SplitAt("-" + pma, "-", "-" + pmb, "-");
    SplitAt("-", pma, "-", pmb);
    Pad2Injective(ma, mb);
    Pad2Injective(da, db);
  }

  /** The part of `FormatDate(d)` after the year: "-" + the two-digit month
      + "-" + the two-digit day. */
  function DateTail(d: Date): (t: string)
    requires FirstYear <= d.year && 1 <= d.month <= 12 && 1 <= d.day <= 31
    ensures |t| == 6
    ensures t[0] == '-' && t[1..3] == Pad2(d.month as nat)
    ensures t[3] == '-' && t[4..] == Pad2(d.day as nat)
  {
    var pm, pd := Pad2(d.month as nat), Pad2(d.day as nat);
    Pad2Length(d.month as nat);
    Pad2Length(d.day as nat);
    DashedSlices(pm, pd);
    "-" + pm + "-" + pd
  }

  /** Where two two-character fields sit in "-" + `pm` + "-" + `pd`. */
  lemma DashedSlices(pm: string, pd: string)
    requires |pm| == 2 && |pd| == 2
    ensures var t := "-" + pm + "-" + pd; |t| == 6 && t[0] == '-' && t[3] == '-'
    ensures var t := "-" + pm + "-" + pd; t[1..3] == pm && t[4..] == pd
  {
    var t := "-" + pm + "-" + pd;
    assert t[1..3] == pm by {
      assert t[1] == pm[0] && t[2] == pm[1];
    }
    assert t[4..] == pd by {
      assert t[4] == pd[0] && t[5] == pd[1];
    }
  }

  lemma SplitAt(x1: string, y1: string, x2: string, y2: string)
    requires x1 + y1 == x2 + y2 && |y1| == |y2|
    ensures x1 == x2 && y1 == y2
  {
    assert x1 == (x1 + y1)[..|x1|];
    assert x2 == (x2 + y2)[..|x2|];
    assert y1 == (x1 + y1)[|x1|..];
    assert y2 == (x2 + y2)[|x2|..];
  }
}
