/**
 * Which clients are due on a weekday and at what time: the filter and the
 * session-time lookup repeated in `getTodaySchedule`, `getUpcomingSchedule`
 * and the home page.
 */
module Schedule {
  import opened Basics
  import opened Records
  import opened Seqs

  const DefaultSessionTime := "09:00"

  /** The filter of `getTodaySchedule`: the weekday is in the client's pattern. */
  predicate IsDue(c: ClientRow, day: Weekday) {
    (c.scheduleSet == SundaySet && day in [Sun, Tue, Thu]) ||
    (c.scheduleSet == SaturdaySet && day in [Sat, Mon, Wed]) ||
    (c.scheduleSet == CustomSet && day in c.customDays)
  }

  /** The set of weekdays a schedule pattern trains on. */
  function PatternDays(c: ClientRow): set<Weekday> {
    match c.scheduleSet
    case SundaySet => {Sun, Tue, Thu}
    case SaturdaySet => {Sat, Mon, Wed}
    case CustomSet => set d | d in c.customDays
  }

  /** A client is due exactly on the days of its pattern. */
  lemma IsDueIffPatternDay(c: ClientRow, day: Weekday)
    ensures IsDue(c, day) <==> day in PatternDays(c)
  {
  }

  /** The two fixed patterns share no day and leave only Friday out. */
  lemma FixedPatternsPartitionWeek(a: ClientRow, b: ClientRow)
    requires a.scheduleSet == SundaySet && b.scheduleSet == SaturdaySet
    ensures PatternDays(a) * PatternDays(b) == {}
    ensures forall d :: d != Fri ==> d in PatternDays(a) + PatternDays(b)
  {
  }

  /** `session_times[day] || '09:00'`. */
  function SessionTime(c: ClientRow, day: Weekday): (t: string)
    ensures t != ""
    ensures day in c.sessionTimes && c.sessionTimes[day] != "" ==> t == c.sessionTimes[day]
    ensures !(day in c.sessionTimes && c.sessionTimes[day] != "") ==> t == DefaultSessionTime
  {
    if day in c.sessionTimes && c.sessionTimes[day] != "" then c.sessionTimes[day] else DefaultSessionTime
  }

  /** `todayClients`: the clients due on `day`, in their listed order. */
  function DueTest(day: Weekday): ClientRow -> bool {
    c => IsDue(c, day)
  }

  function DueClients(clients: seq<ClientRow>, day: Weekday): (r: seq<ClientRow>)
    ensures SubseqOf(r, clients)
    ensures forall c :: c in r <==> c in clients && IsDue(c, day)
  {
    FilterIsSubseq(clients, DueTest(day));
    Filter(clients, DueTest(day))
  }

  /** How many of the seven days starting at `start` a client is due on. */
  function DueDaysInWeek(c: ClientRow, start: Weekday, n: nat): (k: nat)
    requires n <= 7
  {
    if n == 0 then 0 else DueDaysInWeek(c, start, n - 1) + Indicator(IsDue(c, Advance(start, n - 1)))
  }

  function Indicator(b: bool): nat {
    if b then 1 else 0
  }

  /** The number of weekdays in the client's pattern. */
  function PatternSize(c: ClientRow): (k: nat)
    ensures k <= 7
  {
    Indicator(IsDue(c, Sun)) + Indicator(IsDue(c, Mon)) + Indicator(IsDue(c, Tue)) +
    Indicator(IsDue(c, Wed)) + Indicator(IsDue(c, Thu)) + Indicator(IsDue(c, Fri)) +
    Indicator(IsDue(c, Sat))
  }

  /**
   * Over any seven consecutive days a client is due once per day of its
   * pattern: three times for each of the two fixed patterns.
   */
  lemma {:induction false} DueDaysPerWeek(c: ClientRow, start: Weekday)
    ensures DueDaysInWeek(c, start, 7) == PatternSize(c)
    ensures c.scheduleSet != CustomSet ==> DueDaysInWeek(c, start, 7) == 3
  {
    var due := DueOn(c);
    forall i: nat ensures due(i + 7) == due(i) {
      DueAtPeriodic(c, i);
    }
    DueDaysAsSum(c, start, 7);
    SumPeriodic(due, DayIndex(start), 7);
    DueSumFromSunday(c);
    FixedPatternSize(c);
  }

  /** Whether the client is due on the weekday of day index `i`, counted from a Sunday. */
  function DueAt(c: ClientRow, i: nat): nat {
    Indicator(IsDue(c, DayOfIndex(i % 7)))
  }

  function DueOn(c: ClientRow): nat -> nat {
    (i: nat) => DueAt(c, i)
  }

  /** `f(s) + f(s + 1) + ... + f(s + n - 1)`. */
  function Sum(f: nat -> nat, s: nat, n: nat): nat
    decreases n
  {
    if n == 0 then 0 else Sum(f, s, n - 1) + f(s + n - 1)
  }

  lemma {:induction false} DueDaysAsSum(c: ClientRow, start: Weekday, n: nat)
    requires n <= 7
    ensures DueDaysInWeek(c, start, n) == Sum(DueOn(c), DayIndex(start), n)
  {
    if n > 0 {
      var k := n - 1;
      var f := DueOn(c);
      var s := DayIndex(start);
      DueDaysAsSum(c, start, k);
      DueDaysStep(c, start, k);
      assert Sum(f, s, k + 1) == Sum(f, s, k) + f(s + k);
    }
  }

  /** The day added by one more step of the week is the next day index. */
  lemma DueDaysStep(c: ClientRow, start: Weekday, k: nat)
    requires k < 7
    ensures DueDaysInWeek(c, start, k + 1) == DueDaysInWeek(c, start, k) + DueOn(c)(DayIndex(start) + k)
  {
    var i := DayIndex(start) + k;
    assert Advance(start, k) == DayOfIndex(i % 7);
  }

  /** Peeling the first term off a sum. */
  lemma {:induction false} SumFront(f: nat -> nat, s: nat, n: nat)
    ensures Sum(f, s, n + 1) == f(s) + Sum(f, s + 1, n)
  {
    if n > 0 {
      SumFront(f, s, n - 1);
    }
  }

  /** A sum over one period of a periodic `f` does not depend on where it starts. */
  lemma {:induction false} SumPeriodic(f: nat -> nat, s: nat, n: nat)
    requires forall i: nat :: f(i + n) == f(i)
    ensures Sum(f, s, n) == Sum(f, 0, n)
  {
    if s > 0 {
      var p := s - 1;
      SumPeriodic(f, p, n);
      SumFront(f, p, n);
      assert Sum(f, p, n + 1) == Sum(f, p, n) + f(p + n);
    }
  }

  lemma DueAtPeriodic(c: ClientRow, i: nat)
    ensures DueAt(c, i + 7) == DueAt(c, i)
  {
    assert (i + 7) % 7 == i % 7;
  }

  lemma DueSumFromSunday(c: ClientRow)
    ensures Sum(DueOn(c), 0, 7) == PatternSize(c)
  {
  }

  /** Each fixed pattern has three days. */
  lemma FixedPatternSize(c: ClientRow)
    ensures c.scheduleSet != CustomSet ==> PatternSize(c) == 3
  {
  }
}
