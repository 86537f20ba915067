/**
 * The rows of the three tables the core reads and writes (`clients`,
 * `attendance`, `tiers`), restricted to the columns the core touches.
 * A table is modelled as a sequence of rows in storage order.
 */
module Records {
  import opened Basics

  /** `clients.schedule_set`: the Sunday/Tuesday/Thursday set, the Saturday/Monday/Wednesday set, or custom days. */
  datatype ScheduleSet = SundaySet | SaturdaySet | CustomSet

  datatype ClientRow = ClientRow(
    id: Id,
    trainerId: Id,
    name: string,
    phone: string,
    tierId: Option<Id>,
    programs: seq<string>,
    scheduleSet: ScheduleSet,
    customDays: seq<Weekday>,
    sessionTimes: map<Weekday, string>,
    isArchived: bool,
    archivedAt: Option<string>)

  datatype AttendanceRow = AttendanceRow(
    id: Id,
    trainerId: Id,
    clientId: Id,
    date: Date,
    time: string,
    status: Status,
    rescheduledTo: Option<string>,
    rescheduleReason: Option<string>,
    workoutStartedAt: Option<string>,
    createdAt: Option<string>)

  datatype TierRow = TierRow(
    id: Id,
    trainerId: Id,
    name: string,
    color: string,
    amount: int,
    maxConcurrentClients: int,
    isDefault: bool)
}
