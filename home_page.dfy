/**
 * The home page: its own copy of the today-schedule reconciliation
 * (`loadTodaySchedule`), the status lists and counters it shows, and the
 * grouping of the still-scheduled sessions into time slots.
 */
module HomePage {
  import opened Basics
  import opened Records
  import opened Seqs
  import opened Attendance

  /**
   * `loadTodaySchedule` as a transition of the page's `todaySchedule`
   * state: without a signed-in user or a trainer row it returns before
   * touching the state; a failed read of the clients empties it; otherwise
   * it holds the reconciled schedule.
   */
  function LoadTodaySchedule(current: seq<ScheduleEntry>, auth: Auth, clients: seq<ClientRow>,
                             attendance: seq<AttendanceRow>, today: Date, day: Weekday,
                             clientsReadFailed: bool, recordsReadFailed: bool): (next: seq<ScheduleEntry>)
    ensures !auth.Trainer? ==> next == current
    ensures auth.Trainer? && clientsReadFailed ==> next == []
  {
    if !auth.Trainer? then current
    else if clientsReadFailed then []
    else
      var records := if recordsReadFailed then [] else RecordsOn(attendance, auth.id, today);
      Reconcile(ActiveClients(clients, auth.id), records, day)
  }

  /**
   * The page's copy of the reconciliation (which matches times with
   * `normalizeTime`) and the action's (which pads with an inline test)
   * compute the same thing, so both are modelled by the one function
   * `Attendance.Reconcile`. This lemma is therefore no comparison of the
   * two copies: it records that, with that shared model, the page's state
   * for a trainer is the action's result, and that the page differs only
   * in keeping its old state when the caller is not resolved.
   */
  lemma PageMatchesAction(current: seq<ScheduleEntry>, auth: Auth, clients: seq<ClientRow>,
                          attendance: seq<AttendanceRow>, today: Date, day: Weekday,
                          clientsReadFailed: bool, recordsReadFailed: bool)
    requires auth.Trainer?
    ensures LoadTodaySchedule(current, auth, clients, attendance, today, day, clientsReadFailed, recordsReadFailed)
         == GetTodaySchedule(auth, clients, attendance, today, day, clientsReadFailed, recordsReadFailed).value
  {
  }

  // ===== status lists and counters =====

  function HasStatus(st: Status): ScheduleEntry -> bool {
    (e: ScheduleEntry) => e.status == st
  }

  /** `todaySchedule.filter(s => s.status === st)`. */
  function WithStatus(s: seq<ScheduleEntry>, st: Status): (r: seq<ScheduleEntry>)
    ensures forall e :: e in r <==> e in s && e.status == st
    ensures SubseqOf(r, s)
  {
    FilterIsSubseq(s, HasStatus(st));
    Filter(s, HasStatus(st))
  }

  /** What the page derives from its schedule state. */
  datatype Summary = Summary(
    scheduled: seq<ScheduleEntry>,
    attending: seq<ScheduleEntry>,
    attended: seq<ScheduleEntry>,
    missed: seq<ScheduleEntry>,
    attendedCount: nat,
    totalCount: nat)

  /**
   * The page's lists and counts: each list holds the sessions with its
   * status, the attended count is the number of attended sessions, and the
   * total counts every session, rescheduled ones included.
   */
  function Summarize(s: seq<ScheduleEntry>): (r: Summary)
    ensures forall e :: (e in r.scheduled <==> e in s && e.status == Scheduled)
                     && (e in r.attending <==> e in s && e.status == Attending)
                     && (e in r.attended <==> e in s && e.status == Attended)
                     && (e in r.missed <==> e in s && e.status == Missed)
    ensures r.attendedCount == Count(s, HasStatus(Attended)) && r.totalCount == |s|
    ensures r.attendedCount <= r.totalCount
  {
    var attended := WithStatus(s, Attended);
    Summary(WithStatus(s, Scheduled), WithStatus(s, Attending), attended, WithStatus(s, Missed),
      |attended|, |s|)
  }

  /**
   * Every session lands in exactly one of the five status lists, so the
   * four lists the page shows plus the rescheduled sessions, which it
   * shows in none, add up to the whole schedule.
   */
  lemma {:induction false} StatusListsPartition(s: seq<ScheduleEntry>)
    ensures |WithStatus(s, Scheduled)| + |WithStatus(s, Attending)| + |WithStatus(s, Attended)|
          + |WithStatus(s, Missed)| + |WithStatus(s, Rescheduled)| == |s|
  {
    if s != [] {
      StatusListsPartition(s[1..]);
    }
  }

  /** A session is shown in at most one list, and a rescheduled one in none. */
  lemma SummaryLists(s: seq<ScheduleEntry>, e: ScheduleEntry)
    ensures var r := Summarize(s);
      && (e in r.scheduled ==> e !in r.attending && e !in r.attended && e !in r.missed)
      && (e in r.attending ==> e !in r.attended && e !in r.missed)
      && (e in r.attended ==> e !in r.missed)
      && (e in s && e.status == Rescheduled ==>
            e !in r.scheduled && e !in r.attending && e !in r.attended && e !in r.missed)
      && (e in s && e.status != Rescheduled ==>
            e in r.scheduled || e in r.attending || e in r.attended || e in r.missed)
  {
  }

  // ===== time slots =====

  function AtTime(t: string): ScheduleEntry -> bool {
    (e: ScheduleEntry) => e.time == t
  }

  /**
   * The `reduce` that groups the scheduled sessions by their time text:
   * each key collects, in order, the sessions with that time. `slots` lists
   * the keys in the order they were first added, as `Object.keys` does.
   */
  method GroupBySlot(sessions: seq<ScheduleEntry>) returns (groups: map<string, seq<ScheduleEntry>>, slots: seq<string>)
    ensures forall t :: t in groups <==> exists e :: e in sessions && e.time == t
    ensures forall t :: t in groups ==> groups[t] == Filter(sessions, AtTime(t))
    ensures forall t :: t in slots <==> t in groups
    ensures Distinct(slots)
  {
    groups := map[];
    slots := [];
    var i := 0;
    while i < |sessions|
      invariant 0 <= i <= |sessions|
      invariant forall t :: t in groups <==> exists k :: 0 <= k < i && sessions[k].time == t
      invariant forall t :: t in groups ==> groups[t] == Filter(sessions[..i], AtTime(t))
      invariant forall t :: t in slots <==> t in groups
      invariant Distinct(slots)
    {
      var session := sessions[i];
      ghost var before := groups;
      if session.time !in groups {
        groups := groups[session.time := []];
        slots := slots + [session.time];
      }
      groups := groups[session.time := groups[session.time] + [session]];
      assert sessions[..i + 1] == sessions[..i] + [session];
      forall t | t in groups
        ensures groups[t] == Filter(sessions[..i + 1], AtTime(t))
      {
        FilterAppend(sessions[..i], session, AtTime(t));
        if t !in before {
          CountZero(sessions[..i], AtTime(t));
        }

      }
      i := i + 1;
    }
    assert sessions[..i] == sessions;
    forall t | t in groups ensures exists e :: e in sessions && e.time == t {
      var k :| 0 <= k < i && sessions[k].time == t;
      assert sessions[k] in sessions;
    }
  }

  /** `Object.keys(groupedScheduled).sort()`. */
  function TimeSlots(slots: seq<string>): seq<string> {
    SortBy(slots, StrLe)
  }

  /**
   * The slot headings list every key once, in increasing code-point order
   * of their time text.
   */
  lemma TimeSlotsOrdered(slots: seq<string>)
    requires Distinct(slots)
    ensures var r := TimeSlots(slots);
      && (forall t :: t in r <==> t in slots)
      && (forall i, j :: 0 <= i < j < |r| ==> StrLe(r[i], r[j]) && r[i] != r[j])
  {
    var r := TimeSlots(slots);
    StrLePreorder();
    SortBySorted(slots, StrLe);
    SortByDistinct(slots, StrLe);
    forall t ensures t in r <==> t in slots {
      assert t in r <==> t in multiset(r);
      assert t in slots <==> t in multiset(slots);
    }
  }
}
