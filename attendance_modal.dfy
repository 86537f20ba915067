/**
 * The attendance modal: which buttons it offers for the session's current
 * status, which status each button asks `markAttendance` to write, and the
 * request it sends (time normalised, workout choice dropped).
 */
module AttendanceModal {
  import opened Basics
  import opened TimeFormat
  import opened Attendance

  /** The modal's buttons. */
  datatype ModalAction = StartSession | MarkAbsent | Reschedule | MarkCompleted | UndoToScheduled | Cancel

  /** The `currentStatus` prop; an omitted prop reads as scheduled. */
  function CurrentStatus(prop: Option<Status>): (s: Status)
    ensures prop.None? ==> s == Scheduled
    ensures prop.Some? ==> s == prop.value
  {
    if prop.Some? then prop.value else Scheduled
  }

  /** The buttons shown for a status, in screen order; Cancel is always last. */
  function OfferedActions(prop: Option<Status>): seq<ModalAction> {
    match CurrentStatus(prop)
    case Scheduled => [StartSession, MarkAbsent, Reschedule, Cancel]
    case Attending => [MarkCompleted, UndoToScheduled, Cancel]
    case Attended => [UndoToScheduled, Cancel]
    case Missed => [UndoToScheduled, Cancel]
    case Rescheduled => [Cancel]
  }

  /**
   * The status a button ends up writing: Start Session goes through the
   * workout picker and then marks attending; Reschedule only shows a
   * notice and Cancel only closes.
   */
  function Target(a: ModalAction): Option<Status> {
    match a
    case StartSession => Some(Attending)
    case MarkAbsent => Some(Missed)
    case MarkCompleted => Some(Attended)
    case UndoToScheduled => Some(Scheduled)
    case Reschedule => None
    case Cancel => None
  }

  /** The statuses the modal can write from a given status. */
  function OfferedTargets(prop: Option<Status>): set<Status> {
    set a | a in OfferedActions(prop) && Target(a).Some? :: Target(a).value
  }

  /** The title: "Complete Session" while attending, "Mark Attendance" otherwise. */
  function Heading(prop: Option<Status>): (h: string)
    ensures h == "Complete Session" <==> CurrentStatus(prop) == Attending
    ensures h == "Mark Attendance" <==> CurrentStatus(prop) != Attending
  {
    if CurrentStatus(prop) == Attending then "Complete Session" else "Mark Attendance"
  }

  /** The status machine the buttons implement, status by status. */
  lemma OfferedTargetsByStatus(prop: Option<Status>)
    ensures CurrentStatus(prop) == Scheduled ==> OfferedTargets(prop) == {Attending, Missed}
    ensures CurrentStatus(prop) == Attending ==> OfferedTargets(prop) == {Attended, Scheduled}
    ensures CurrentStatus(prop) == Attended ==> OfferedTargets(prop) == {Scheduled}
    ensures CurrentStatus(prop) == Missed ==> OfferedTargets(prop) == {Scheduled}
    ensures CurrentStatus(prop) == Rescheduled ==> OfferedTargets(prop) == {}
    ensures OfferedActions(prop)[|OfferedActions(prop)| - 1] == Cancel
  {
    var acts := OfferedActions(prop);
    assert forall a :: a in acts ==> a in acts;
    match CurrentStatus(prop)
    case Scheduled =>
      assert Target(acts[0]) == Some(Attending) && Target(acts[1]) == Some(Missed);
    case Attending =>
      assert Target(acts[0]) == Some(Attended) && Target(acts[1]) == Some(Scheduled);
    case Attended =>
      assert Target(acts[0]) == Some(Scheduled);
    case Missed =>
      assert Target(acts[0]) == Some(Scheduled);
    case Rescheduled =>
  }

  /**
   * The modal never writes rescheduled, never offers to rewrite the current
   * status, and offers a way back to scheduled from every status it can
   * write other than scheduled itself.
   */
  lemma OfferedTargetsShape(prop: Option<Status>)
    ensures Rescheduled !in OfferedTargets(prop)
    ensures CurrentStatus(prop) !in OfferedTargets(prop)
    ensures forall t :: t in OfferedTargets(prop) && t != Scheduled ==> Scheduled in OfferedTargets(Some(t))
  {
    OfferedTargetsByStatus(prop);
    OfferedTargetsByStatus(Some(Attending));
    OfferedTargetsByStatus(Some(Attended));
    OfferedTargetsByStatus(Some(Missed));
  }

  /**
   * `handleMarkAttendance(status, workoutId)`: the request it sends. The
   * time is normalised here; the workout id has no field to go into.
   */
  function ModalRequest(clientId: Id, date: Date, scheduledTime: string, status: Status): (req: MarkRequest)
    ensures req.clientId == clientId && req.date == date && req.status == status
    ensures req.time == NormalizeTime(scheduledTime) && IsNormalized(req.time)
    ensures req.rescheduledTo.None? && req.rescheduleReason.None?
  {
    NormalizeTimeNormalizes(scheduledTime);
    MarkRequest(clientId, date, NormalizeTime(scheduledTime), status, None, None)
  }

  /**
   * The modal after the action answers. The handler tests `result.error`
   * for truthiness, so only a non-empty message is shown, keeping the
   * modal open; success and an empty message both close it.
   */
  datatype Outcome = ShowError(message: string) | Closed

  function AfterMark(r: Result<()>): (o: Outcome)
    ensures o.ShowError? <==> r.Err? && r.msg != ""
    ensures o.ShowError? ==> o.message == r.msg
    ensures r.Ok? ==> o == Closed
  {
    match r
    case Err(m) => if m != "" then ShowError(m) else Closed
    case Ok(_) => Closed
  }

  /**
   * Whichever button is pressed, a modal opened on the slot shown in
   * today's schedule writes a row whose key time is normalised, so the
   * `find` in today's schedule recognises it as that client's slot.
   */
  lemma ModalKeyMatchesSlot(clientId: Id, date: Date, scheduledTime: string, status: Status)
    ensures var req := ModalRequest(clientId, date, scheduledTime, status);
      NormalizeTime(req.time) == NormalizeTime(scheduledTime)
  {
    NormalizeTimeIdempotent(scheduledTime);
  }
}
