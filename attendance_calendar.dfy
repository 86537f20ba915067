/**
 * The month calendar of a client's attendance: the Gregorian arithmetic
 * behind `new Date(year, month, day)`, the list of grid cells (leading
 * blanks, then the days of the month), the number of week rows, the
 * per-day lookup, the status colours and icons, and the today/past tests.
 * Dates are counted as day numbers, day 0 being Monday 1 January of year 1
 * of the proleptic Gregorian calendar.
 */
module AttendanceCalendar {
  import opened Basics
  import opened Seqs

  // ===== Gregorian arithmetic =====

  /** The two-digit-year rule of the `Date` constructor: years 0..99 mean 1900..1999. */
  function EffectiveYear(year: int): (y: int)
    ensures 0 <= year <= 99 ==> y == 1900 + year
    ensures !(0 <= year <= 99) ==> y == year
  {
    if 0 <= year <= 99 then 1900 + year else year
  }

  predicate IsLeap(y: int) {
    y % 4 == 0 && (y % 100 != 0 || y % 400 == 0)
  }

  /** The length of month `m` (1..12) of year `y`. */
  function MonthLength(y: int, m: int): (n: nat)
    requires 1 <= m <= 12
    ensures 28 <= n <= 31
    ensures m == 2 ==> (n == 29 <==> IsLeap(y)) && (n == 28 <==> !IsLeap(y))
    ensures m in {4, 6, 9, 11} ==> n == 30
    ensures m in {1, 3, 5, 7, 8, 10, 12} ==> n == 31
  {
    if m == 2 then (if IsLeap(y) then 29 else 28)
    else if m == 4 || m == 6 || m == 9 || m == 11 then 30
    else 31
  }

  /** Days in the months of year `y` before month `m` (1..13). */
  function DaysBeforeMonth(y: int, m: int): nat
    requires 1 <= m <= 13
    decreases m
  {
    if m == 1 then 0 else DaysBeforeMonth(y, m - 1) + MonthLength(y, m - 1)
  }

  function YearLength(y: int): nat {
    if IsLeap(y) then 366 else 365
  }

  /** The twelve months fill the year. */
  lemma MonthsFillYear(y: int)
    ensures DaysBeforeMonth(y, 13) == YearLength(y)
  {
  }

  /** Days from 1 January of year 1 to 1 January of year `y`. */
  function DaysBeforeYear(y: int): int {
    365 * (y - 1) + (y - 1) / 4 - (y - 1) / 100 + (y - 1) / 400
  }

  lemma DivStep(y: int, k: int)
    requires k == 4 || k == 100 || k == 400
    ensures y / k - (y - 1) / k == (if y % k == 0 then 1 else 0)
  {
    if k == 4 {
      assert y / 4 - (y - 1) / 4 == (if y % 4 == 0 then 1 else 0);
    } else if k == 100 {
      assert y / 100 - (y - 1) / 100 == (if y % 100 == 0 then 1 else 0);
    } else {
      assert y / 400 - (y - 1) / 400 == (if y % 400 == 0 then 1 else 0);
    }
  }

  /** Consecutive years are a year's length apart. */
  lemma YearStep(y: int)
    ensures DaysBeforeYear(y + 1) == DaysBeforeYear(y) + YearLength(y)
  {
    DivStep(y, 4);
    DivStep(y, 100);
    DivStep(y, 400);
    DivisorsOf400(y);
  }

  /** A multiple of 400 is a multiple of 100, and a multiple of 100 is a multiple of 4. */
  lemma DivisorsOf400(y: int)
    ensures y % 400 == 0 ==> y % 100 == 0
    ensures y % 100 == 0 ==> y % 4 == 0
  {
    if y % 400 == 0 {
      MultipleMod(4 * (y / 400), 100);
    }
    if y % 100 == 0 {
      MultipleMod(25 * (y / 100), 4);
    }
  }

  lemma MultipleMod(q: int, k: int)
    requires k == 4 || k == 100
    ensures (k * q) % k == 0
  {
    if k == 4 {
      assert (4 * q) % 4 == 0;
    } else {
      assert (100 * q) % 100 == 0;
    }
  }

  /** The day number of `y-m-d` for a month `m` in 1..12 (any `d`). */
  function DayNumber(y: int, m: int, d: int): int
    requires 1 <= m <= 12
  {
    DaysBeforeYear(y) + DaysBeforeMonth(y, m) + d - 1
  }

  /** `getDay()` of a day number: 0 = Sunday. */
  function WeekdayIndex(n: int): (w: nat)
    ensures w < 7
  {
    (n + 1) % 7
  }

  /** The month a `Date` constructor lands in: the year rule, then month overflow carried into the year. */
  datatype YearMonth = YearMonth(year: int, month: int)

  function NormalMonth(year: int, month0: int): (ym: YearMonth)
    ensures 1 <= ym.month <= 12
  {
    YearMonth(EffectiveYear(year) + month0 / 12, month0 % 12 + 1)
  }

  /** `new Date(year, month0, day)` as a day number; `day` may overflow or be zero. */
  function MakeDate(year: int, month0: int, day: int): int {
    var ym := NormalMonth(year, month0);
    DayNumber(ym.year, ym.month, day)
  }

  /** `new Date(year, month, 0).getDate()`: the length of the month before index `month`, i.e. month `month` counted from 1. */
  function DaysInMonth(year: int, month: int): (n: nat)
    ensures 28 <= n <= 31
  {
    var ym := NormalMonth(year, month - 1);
    MonthLength(ym.year, ym.month)
  }

  /** `new Date(year, month - 1, 1).getDay()`. */
  function FirstDayOfMonth(year: int, month: int): (w: nat)
    ensures w < 7
  {
    WeekdayIndex(MakeDate(year, month - 1, 1))
  }

  /** For a month 1..12 and a year outside 0..99 the arguments are taken as they are. */
  lemma PlainMonth(year: int, month: int)
    requires 1 <= month <= 12 && !(0 <= year <= 99)
    ensures NormalMonth(year, month - 1) == YearMonth(year, month)
    ensures DaysInMonth(year, month) == MonthLength(year, month)
  {
  }

  /** `new Date(year, month, 0)` is the day before `new Date(year, month, 1)`, so its date is the previous month's length. */
  lemma DayZeroIsLastOfPreviousMonth(year: int, month: int)
    ensures MakeDate(year, month - 1, DaysInMonth(year, month)) + 1 == MakeDate(year, month, 1)
  {
    NextMonthCarries(year, month);
    DayAfterMonthEnd(NormalMonth(year, month - 1), NormalMonth(year, month));
  }

  /** The day after the last of a month is the first of the next month, or of January of the next year. */
  lemma DayAfterMonthEnd(ym: YearMonth, next: YearMonth)
    requires 1 <= ym.month <= 12
    requires next == if ym.month == 12 then YearMonth(ym.year + 1, 1) else YearMonth(ym.year, ym.month + 1)
    ensures DayNumber(ym.year, ym.month, MonthLength(ym.year, ym.month)) + 1 == DayNumber(next.year, next.month, 1)
  {
    if ym.month == 12 {
      DecemberToJanuary(ym.year);
    } else {
      MonthToMonth(ym.year, ym.month);
    }
  }

  lemma DecemberToJanuary(y: int)
    ensures DayNumber(y, 12, MonthLength(y, 12)) + 1 == DayNumber(y + 1, 1, 1)
  {
    YearStep(y);
    MonthsFillYear(y);
    assert DaysBeforeMonth(y, 13) == DaysBeforeMonth(y, 12) + MonthLength(y, 12);
  }

  lemma MonthToMonth(y: int, m: int)
    requires 1 <= m < 12
    ensures DayNumber(y, m, MonthLength(y, m)) + 1 == DayNumber(y, m + 1, 1)
  {
    assert DaysBeforeMonth(y, m + 1) == DaysBeforeMonth(y, m) + MonthLength(y, m);
  }

  /** Month index `month` lands one month after index `month - 1`, carrying December into January. */
  lemma NextMonthCarries(year: int, month: int)
    ensures var ym := NormalMonth(year, month - 1);
      NormalMonth(year, month) == if ym.month == 12 then YearMonth(ym.year + 1, 1) else YearMonth(ym.year, ym.month + 1)
  {
  }

  /**
   * The first of the following month falls `DaysInMonth` weekdays after
   * the first of this one: consecutive calendars continue each other.
   */
  lemma NextMonthFirstDay(year: int, month: int)
    ensures FirstDayOfMonth(year, month + 1) == (FirstDayOfMonth(year, month) + DaysInMonth(year, month)) % 7
  {
    var len := DaysInMonth(year, month);
    var n := MakeDate(year, month - 1, 1);
    var m := MakeDate(year, month, 1);
    DayZeroIsLastOfPreviousMonth(year, month);
    MakeDateDay(year, month - 1, len);
    WeekdayShift(n, m, len);
  }

  /** A day `len` days after another falls `len` weekdays later. */
  lemma WeekdayShift(n: int, m: int, len: nat)
    requires m == n + len
    ensures WeekdayIndex(m) == (WeekdayIndex(n) + len) % 7
  {
    ModAdd(n + 1, len);
  }

  /** Within a month the day number grows with the day of the month. */
  lemma MakeDateDay(year: int, month0: int, day: int)
    ensures MakeDate(year, month0, day) == MakeDate(year, month0, 1) + day - 1
  {
  }

  // ===== the grid =====

  /**
   * The two loops that fill `calendarDays`: `firstDay` blank cells, then
   * the days 1..`daysInMonth`.
   */
  ghost predicate IsCalendar(cells: seq<Option<nat>>, firstDay: nat, daysInMonth: nat) {
    && |cells| == firstDay + daysInMonth
    && (forall i :: 0 <= i < firstDay ==> cells[i].None?)
    && (forall i :: firstDay <= i < |cells| ==> cells[i] == Some(i - firstDay + 1))
  }

  method BuildCalendarDays(firstDay: nat, daysInMonth: nat) returns (cells: seq<Option<nat>>)
    ensures |cells| == firstDay + daysInMonth
    ensures forall i :: 0 <= i < firstDay ==> cells[i].None?
    ensures forall i :: firstDay <= i < |cells| ==> cells[i] == Some(i - firstDay + 1)
    ensures IsCalendar(cells, firstDay, daysInMonth)
  {
    cells := [];
    var i := 0;
    while i < firstDay
      invariant 0 <= i <= firstDay
      invariant |cells| == i
      invariant forall k :: 0 <= k < i ==> cells[k].None?
    {
      cells := cells + [None];
      i := i + 1;
    }
    var day := 1;
    while day <= daysInMonth
      invariant 1 <= day <= daysInMonth + 1
      invariant |cells| == firstDay + day - 1
      invariant forall k :: 0 <= k < firstDay ==> cells[k].None?
      invariant forall k :: firstDay <= k < |cells| ==> cells[k] == Some(k - firstDay + 1)
    {
      cells := cells + [Some(day)];
      day := day + 1;
    }
  }

  /** `Math.ceil(totalCells / 7)`. */
  function WeeksNeeded(total: nat): (w: nat)
    ensures 7 * w >= total
    ensures w > 0 ==> 7 * (w - 1) < total
  {
    (total + 6) / 7
  }

  /** `calendarDays[cellIndex]`; an index past the end reads as an empty cell. */
  function CellAt(cells: seq<Option<nat>>, index: nat): Option<nat> {
    if index < |cells| then cells[index] else None
  }

  /**
   * Every cell index below the total is drawn at row `index / 7`, column
   * `index % 7`, a row below `weeksNeeded`; and day `d` of the month is
   * drawn in the column of its own weekday.
   */
  lemma GridCoversCells(year: int, month: int, cells: seq<Option<nat>>, d: int)
    requires IsCalendar(cells, FirstDayOfMonth(year, month), DaysInMonth(year, month))
    requires 1 <= d <= DaysInMonth(year, month)
    ensures var index := FirstDayOfMonth(year, month) + d - 1;
      var total := FirstDayOfMonth(year, month) + DaysInMonth(year, month);
      && CellAt(cells, index) == Some(d)
      && index / 7 < WeeksNeeded(total)
      && index == (index / 7) * 7 + index % 7
      && index % 7 == WeekdayIndex(MakeDate(year, month - 1, d))
  {
    var first := FirstDayOfMonth(year, month);
    var index := first + d - 1;
    var total := first + DaysInMonth(year, month);
    var w := WeeksNeeded(total);
    assert index < total <= 7 * w;
    var n := MakeDate(year, month - 1, 1);
    assert MakeDate(year, month - 1, d) == n + d - 1;
    assert first == (n + 1) % 7;
    ModAdd(n + 1, d - 1);
  }

  lemma ModAdd(a: int, b: nat)
    ensures (a % 7 + b) % 7 == (a + b) % 7
  {
    var q := a / 7;
    assert a == 7 * q + a % 7;
    assert a + b == 7 * q + (a % 7 + b);
  }

  // ===== per-day lookup, colours and icons =====

  /** One day of the client's attendance for the month, as the page passes it in. */
  datatype AttendanceDay = AttendanceDay(
    date: string,
    day: int,
    dayOfWeek: string,
    time: string,
    status: string,
    markedAt: Option<string>)

  function OnDay(d: int): AttendanceDay -> bool {
    (a: AttendanceDay) => a.day == d
  }

  /** `getAttendanceForDay`: a blank cell (or a falsy 0) has none; otherwise the first entry for that day. */
  function AttendanceForDay(days: seq<AttendanceDay>, cell: Option<int>): (r: Option<AttendanceDay>)
    ensures (cell.None? || cell == Some(0)) ==> r.None?
    ensures r.Some? ==> r.value in days && r.value.day == cell.value
    ensures cell.Some? && cell.value != 0 && r.None? ==> forall a :: a in days ==> a.day != cell.value
    ensures r.Some? ==> exists k :: 0 <= k < |days| && days[k] == r.value &&
                                    forall j :: 0 <= j < k ==> days[j].day != cell.value
  {
    if cell.None? || cell.value == 0 then None
    else
      Find(days, OnDay(cell.value))
  }

  /** `getStatusColor`. */
  function StatusColor(status: string): string {
    if status == "attended" then "success.solid"
    else if status == "missed" then "danger.solid"
    else if status == "attending" then "warning.solid"
    else if status == "rescheduled" then "primary.solid"
    else "neutral.300"
  }

  datatype Icon = CheckIcon | CrossIcon | CalendarIcon

  /** `getStatusIcon`. */
  function StatusIcon(status: string): Option<Icon> {
    if status == "attended" then Some(CheckIcon)
    else if status == "missed" then Some(CrossIcon)
    else if status == "attending" || status == "rescheduled" then Some(CalendarIcon)
    else None
  }

  function StatusName(s: Status): string {
    match s
    case Scheduled => "scheduled"
    case Attending => "attending"
    case Attended => "attended"
    case Missed => "missed"
    case Rescheduled => "rescheduled"
  }

  /**
   * A day shows an icon exactly when it has a colour other than the
   * neutral one; scheduled and any unknown status get neither, and the
   * four marked statuses get four different colours.
   */
  lemma ColorIconAgree(status: string)
    ensures StatusIcon(status).None? <==> StatusColor(status) == "neutral.300"
    ensures StatusIcon(status).None? <==> status !in {"attended", "missed", "attending", "rescheduled"}
    ensures forall s, t :: s != t && s != Scheduled && t != Scheduled ==>
      StatusColor(StatusName(s)) != StatusColor(StatusName(t))
  {
  }

  // ===== today and past =====

  /** The clock's local date: `getFullYear()`, `getMonth()` (0..11) and `getDate()`. */
  datatype LocalDate = LocalDate(year: int, month0: int, date: int)

  /** `isToday`: the cell's day, the shown month and year all equal the clock's. */
  function IsToday(today: LocalDate, year: int, month: int, cell: Option<int>): (b: bool)
    ensures (cell.None? || cell == Some(0)) ==> !b
    ensures b <==> cell.Some? && cell.value != 0 && today.date == cell.value &&
                   today.month0 == month - 1 && today.year == year
  {
    if cell.None? || cell.value == 0 then false
    else today.date == cell.value && today.month0 == month - 1 && today.year == year
  }

  /** `isPast`: the cell's date is strictly before today's date at midnight. */
  function IsPast(today: LocalDate, year: int, month: int, cell: Option<int>): (b: bool)
    ensures (cell.None? || cell == Some(0)) ==> !b
  {
    if cell.None? || cell.value == 0 then false
    else MakeDate(year, month - 1, cell.value) < MakeDate(today.year, today.month0, today.date)
  }

  /** Today is never past, because past is a strict comparison. */
  lemma TodayIsNotPast(today: LocalDate, year: int, month: int, cell: Option<int>)
    requires IsToday(today, year, month, cell)
    ensures !IsPast(today, year, month, cell)
  {
  }

  /** Within the month on show, a day is past exactly when it comes before today's date. */
  lemma PastInShownMonth(today: LocalDate, year: int, month: int, d: int)
    requires today.year == year && today.month0 == month - 1 && d != 0
    ensures IsPast(today, year, month, Some(d)) <==> d < today.date
  {
  }
}
