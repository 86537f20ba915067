/**
 * The attendance server actions: the upsert `markAttendance`, the listing
 * `getClientAttendance`, the reconciliation `getTodaySchedule`, the status
 * filter `getAttendingClients` and the lookahead `getUpcomingSchedule`.
 * The `attendance` table is a class holding its rows; the reads take the
 * tables' rows as arguments.
 */
module Attendance {
  import opened Basics
  import opened Records
  import opened Seqs
  import opened TimeFormat
  import opened Schedule

  // ===== markAttendance =====

  /** The argument object of `markAttendance`; it has no workout field. */
  datatype MarkRequest = MarkRequest(
    clientId: Id,
    date: Date,
    time: string,
    status: Status,
    rescheduledTo: Option<string>,
    rescheduleReason: Option<string>)

  /** The natural key: the exact (client, date, time text) triple, compared without normalising. */
  predicate HasKey(r: AttendanceRow, clientId: Id, date: Date, time: string) {
    r.clientId == clientId && r.date == date && r.time == time
  }

  function KeyTest(req: MarkRequest): AttendanceRow -> bool {
    (r: AttendanceRow) => HasKey(r, req.clientId, req.date, req.time)
  }

  /** No two rows share a natural key. */
  ghost predicate KeyUnique(rows: seq<AttendanceRow>) {
    forall i, j :: 0 <= i < j < |rows| ==> !HasKey(rows[j], rows[i].clientId, rows[i].date, rows[i].time)
  }

  /**
   * The `.maybeSingle()` lookup by natural key: the matching row when
   * exactly one row matches; several matches are an error the action
   * ignores, so they read as absent like none.
   */
  function Existing(rows: seq<AttendanceRow>, req: MarkRequest): (r: Option<nat>)
    ensures r.Some? ==> r.value < |rows| && HasKey(rows[r.value], req.clientId, req.date, req.time)
    ensures r.Some? ==> forall j :: 0 <= j < |rows| && j != r.value ==> !HasKey(rows[j], req.clientId, req.date, req.time)
  {
    var p := KeyTest(req);
    if Count(rows, p) == 1 then
      CountOne(rows, p);
      Some(FirstIndex(rows, p))
    else
      None
  }

  /** With unique keys, an absent lookup means no row has the key at all. */
  lemma ExistingAbsent(rows: seq<AttendanceRow>, req: MarkRequest)
    requires KeyUnique(rows)
    ensures Existing(rows, req).None? <==> forall j :: 0 <= j < |rows| ==> !HasKey(rows[j], req.clientId, req.date, req.time)
  {
    var p := KeyTest(req);
    CountAtMostOne(rows, p);
    CountZero(rows, p);
  }

  /** `updateData` applied to an existing row. */
  function Patched(r: AttendanceRow, req: MarkRequest, now: string): AttendanceRow {
    r.(status := req.status,
       rescheduledTo := NullIfEmpty(req.rescheduledTo),
       rescheduleReason := NullIfEmpty(req.rescheduleReason),
       workoutStartedAt := if req.status == Attending then Some(now) else r.workoutStartedAt)
  }

  /** The row inserted when no row has the key; the store stamps `created_at`. */
  function Inserted(id: Id, trainer: Id, req: MarkRequest, now: string): AttendanceRow {
    AttendanceRow(id, trainer, req.clientId, req.date, req.time, req.status,
      NullIfEmpty(req.rescheduledTo), NullIfEmpty(req.rescheduleReason),
      if req.status == Attending then Some(now) else None,
      Some(now))
  }

  /** The table after a successful `markAttendance`. */
  function Upsert(rows: seq<AttendanceRow>, nextId: Id, trainer: Id, req: MarkRequest, now: string): seq<AttendanceRow> {
    match Existing(rows, req)
    case Some(i) => rows[i := Patched(rows[i], req, now)]
    case None => rows + [Inserted(nextId, trainer, req, now)]
  }

  /** Where the upserted row sits: the existing row's index, or the end. */
  function UpsertIndex(rows: seq<AttendanceRow>, req: MarkRequest): nat {
    match Existing(rows, req)
    case Some(i) => i
    case None => |rows|
  }

  /**
   * An upsert updates the keyed row in place (row count unchanged) or
   * appends exactly one row owned by the trainer, and touches no other row.
   * The written row carries the requested status, the reschedule fields or
   * null, and a workout start time only when the status is attending.
   */
  lemma UpsertWrites(rows: seq<AttendanceRow>, nextId: Id, trainer: Id, req: MarkRequest, now: string)
    ensures var after := Upsert(rows, nextId, trainer, req, now);
      var k := UpsertIndex(rows, req);
      && |after| == |rows| + (if k < |rows| then 0 else 1)
      && k < |after|
      && HasKey(after[k], req.clientId, req.date, req.time)
      && after[k].status == req.status
      && after[k].rescheduledTo == NullIfEmpty(req.rescheduledTo)
      && after[k].rescheduleReason == NullIfEmpty(req.rescheduleReason)
      && (req.status == Attending ==> after[k].workoutStartedAt == Some(now))
      && (req.status != Attending && k < |rows| ==> after[k].workoutStartedAt == rows[k].workoutStartedAt)
      && (req.status != Attending && k == |rows| ==> after[k].workoutStartedAt == None)
      && (k < |rows| ==> after[k].id == rows[k].id && after[k].trainerId == rows[k].trainerId)
      && (k == |rows| ==> after[k].id == nextId && after[k].trainerId == trainer)
      && (forall j :: 0 <= j < |rows| && j != k ==> after[j] == rows[j])
  {
  }

  /** The upsert keeps natural keys unique, and afterwards exactly one row has the requested key. */
  lemma {:induction false} UpsertKeepsKeyUnique(rows: seq<AttendanceRow>, nextId: Id, trainer: Id, req: MarkRequest, now: string)
    requires KeyUnique(rows)
    ensures var after := Upsert(rows, nextId, trainer, req, now);
      && KeyUnique(after)
      && (forall j :: 0 <= j < |after| && HasKey(after[j], req.clientId, req.date, req.time) ==> j == UpsertIndex(rows, req))
  {
    var after := Upsert(rows, nextId, trainer, req, now);
    var k := UpsertIndex(rows, req);
    UpsertWrites(rows, nextId, trainer, req, now);
    ExistingAbsent(rows, req);
    forall i, j | 0 <= i < j < |after|
      ensures !HasKey(after[j], after[i].clientId, after[i].date, after[i].time)
    {
      if i != k && j != k {
        assert after[i] == rows[i] && after[j] == rows[j];
      } else if i == k {
        assert HasKey(after[i], req.clientId, req.date, req.time);
      } else {
        assert HasKey(after[j], req.clientId, req.date, req.time);
        assert after[i] == rows[i];
      }
    }
  }

  /**
   * A failed lookup reads as "no row", so the action inserts. That insert
   * keeps keys unique exactly when no row had the key; otherwise it adds a
   * second row for it.
   */
  lemma InsertKeepsKeyUnique(rows: seq<AttendanceRow>, nextId: Id, trainer: Id, req: MarkRequest, now: string)
    requires KeyUnique(rows)
    ensures KeyUnique(rows + [Inserted(nextId, trainer, req, now)])
      <==> forall j :: 0 <= j < |rows| ==> !HasKey(rows[j], req.clientId, req.date, req.time)
  {
    var after := rows + [Inserted(nextId, trainer, req, now)];
    assert HasKey(after[|rows|], req.clientId, req.date, req.time);
    if forall j :: 0 <= j < |rows| ==> !HasKey(rows[j], req.clientId, req.date, req.time) {
      forall i, j | 0 <= i < j < |after|
        ensures !HasKey(after[j], after[i].clientId, after[i].date, after[i].time)
      {
        assert after[i] == rows[i];
      }
    } else {
      var j :| 0 <= j < |rows| && HasKey(rows[j], req.clientId, req.date, req.time);
      assert after[j] == rows[j];
    }
  }

  /** No two rows share an id. */
  ghost predicate IdsDistinct(rows: seq<AttendanceRow>) {
    forall i, j :: 0 <= i < j < |rows| ==> rows[i].id != rows[j].id
  }

  /** `.update(updateData).eq('id', id)`: every row with the id gets the update. */
  function PatchById(rows: seq<AttendanceRow>, id: Id, req: MarkRequest, now: string): (after: seq<AttendanceRow>)
    ensures |after| == |rows|
    ensures forall j :: 0 <= j < |rows| ==> after[j] == if rows[j].id == id then Patched(rows[j], req, now) else rows[j]
  {
    if rows == [] then []
    else [if rows[0].id == id then Patched(rows[0], req, now) else rows[0]] + PatchById(rows[1..], id, req, now)
  }

  /**
   * With distinct ids, updating the found row at its index is the same as
   * the store's update by that row's id.
   */
  lemma PatchAtIndexIsById(rows: seq<AttendanceRow>, i: nat, req: MarkRequest, now: string)
    requires IdsDistinct(rows) && i < |rows|
    ensures rows[i := Patched(rows[i], req, now)] == PatchById(rows, rows[i].id, req, now)
  {
  }

  /** Appending a row that takes the generator's id keeps ids distinct and below the advanced generator. */
  lemma InsertKeepsIds(rows: seq<AttendanceRow>, nextId: Id, row: AttendanceRow)
    requires IdsDistinct(rows) && forall r :: r in rows ==> r.id < nextId
    requires row.id == nextId
    ensures IdsDistinct(rows + [row])
    ensures forall r :: r in rows + [row] ==> r.id < nextId + 1
  {
    var after := rows + [row];
    forall i, j | 0 <= i < j < |after| ensures after[i].id != after[j].id {
      if j == |rows| {
        assert after[i] == rows[i] && rows[i] in rows;
      }
    }
  }

  /** An upsert keeps ids distinct and below the generator, which moves on exactly when a row is inserted. */
  lemma UpsertKeepsIds(rows: seq<AttendanceRow>, nextId: Id, trainer: Id, req: MarkRequest, now: string)
    requires IdsDistinct(rows) && forall r :: r in rows ==> r.id < nextId
    ensures var after := Upsert(rows, nextId, trainer, req, now);
      var next := if Existing(rows, req).Some? then nextId else nextId + 1;
      && IdsDistinct(after)
      && (forall r :: r in after ==> r.id < next)
  {
    var after := Upsert(rows, nextId, trainer, req, now);
    var k := UpsertIndex(rows, req);
    UpsertWrites(rows, nextId, trainer, req, now);
    forall i | 0 <= i < |after| ensures after[i].id < (if Existing(rows, req).Some? then nextId else nextId + 1) {
      if i != k {
        assert after[i] == rows[i] && rows[i] in rows;
      } else if k < |rows| {
        assert rows[k] in rows;
      }
    }
    forall i, j | 0 <= i < j < |after| ensures after[i].id != after[j].id {
      if j == |rows| {
        assert after[i] == rows[i] && rows[i] in rows;
      }
    }
  }

  /**
   * The `attendance` table. `nextId` stands for the store's id generator:
   * every stored id is below it.
   */
  class AttendanceTable {
    var rows: seq<AttendanceRow>
    var nextId: Id

    /**
     * Every id is below the generator and ids are distinct. Natural keys
     * are not part of it: an insert after a failed lookup can repeat one.
     */
    ghost predicate Valid()
      reads this
    {
      && (forall r :: r in rows ==> r.id < nextId)
      && IdsDistinct(rows)
    }

    constructor ()
      ensures Valid() && rows == []
    {
      rows := [];
      nextId := 0;
    }

    /**
     * `markAttendance`: resolve the trainer, look the natural key up, then
     * update that row or insert a new one. `readFailed` stands for a failed
     * lookup, whose error the action ignores: it reads as "no row", so the
     * action inserts. `fault` is the store's answer to the write; the time
     * is used exactly as given, without normalising.
     */
    method MarkAttendance(auth: Auth, req: MarkRequest, now: string, readFailed: bool, fault: Option<string>)
      returns (r: Result<()>)
      requires Valid()
      modifies this
      ensures Valid()
      ensures auth.NoUser? ==> r == Err(NotAuthenticated)
      ensures auth.NoTrainer? ==> r == Err(TrainerNotFound)
      ensures auth.Trainer? ==> r == (if fault.Some? then Err(fault.value) else Ok(()))
      ensures r.Err? ==> rows == old(rows) && nextId == old(nextId)
      ensures r.Ok? && !readFailed ==> rows == Upsert(old(rows), old(nextId), auth.id, req, now)
      ensures r.Ok? && readFailed ==> rows == old(rows) + [Inserted(old(nextId), auth.id, req, now)]
      ensures r.Ok? ==> nextId == old(nextId) + (if !readFailed && Existing(old(rows), req).Some? then 0 else 1)
      ensures r.Ok? && !readFailed && Existing(old(rows), req).Some? ==>
        rows == PatchById(old(rows), old(rows)[Existing(old(rows), req).value].id, req, now)
      ensures KeyUnique(old(rows)) && !readFailed ==> KeyUnique(rows)
      ensures KeyUnique(old(rows)) && r.Ok? && readFailed ==>
        (KeyUnique(rows) <==> forall j :: 0 <= j < |old(rows)| ==> !HasKey(old(rows)[j], req.clientId, req.date, req.time))
    {
      if auth.NoUser? {
        return Err(NotAuthenticated);
      }
      if auth.NoTrainer? {
        return Err(TrainerNotFound);
      }
      var trainer := auth.id;
      var existing := if readFailed then None else Existing(rows, req);
      var status := req.status;
      var rescheduledTo := NullIfEmpty(req.rescheduledTo);
      var rescheduleReason := NullIfEmpty(req.rescheduleReason);
      var startedAt: Option<string> := None;
      if status == Attending {
        startedAt := Some(now);
      }
      if existing.Some? {
        if fault.Some? {
          return Err(fault.value);
        }
        var i := existing.value;
        var row := rows[i];
        var updated := row.(status := status, rescheduledTo := rescheduledTo, rescheduleReason := rescheduleReason);
        if startedAt.Some? {
          updated := updated.(workoutStartedAt := startedAt);
        }
        rows := rows[i := updated];
      } else {
        if fault.Some? {
          return Err(fault.value);
        }
        var row := AttendanceRow(nextId, trainer, req.clientId, req.date, req.time, status,
          rescheduledTo, rescheduleReason, startedAt, Some(now));
        rows := rows + [row];
        nextId := nextId + 1;
      }
      if readFailed {
        InsertKeepsIds(old(rows), old(nextId), Inserted(old(nextId), trainer, req, now));
        if KeyUnique(old(rows)) {
          InsertKeepsKeyUnique(old(rows), old(nextId), trainer, req, now);
        }
      } else {
        if KeyUnique(old(rows)) {
          UpsertKeepsKeyUnique(old(rows), old(nextId), trainer, req, now);
        }
        UpsertKeepsIds(old(rows), old(nextId), trainer, req, now);
        if existing.Some? {
          PatchAtIndexIsById(old(rows), existing.value, req, now);
        }
      }
      r := Ok(());
    }
  }

  /**
   * Marking attending and later attended on the same key leaves one row,
   * attended, whose workout start time is the one the first call stamped.
   */
  lemma {:induction false} AttendingThenAttended(rows: seq<AttendanceRow>, nextId: Id, trainer: Id,
                                                 clientId: Id, date: Date, time: string, t1: string, t2: string)
    requires KeyUnique(rows)
    ensures var first := MarkRequest(clientId, date, time, Attending, None, None);
      var second := first.(status := Attended);
      var mid := Upsert(rows, nextId, trainer, first, t1);
      var after := Upsert(mid, nextId + 1, trainer, second, t2);
      && KeyUnique(after)
      && Count(after, KeyTest(first)) == 1
      && FirstIndex(after, KeyTest(first)) < |after|
      && after[FirstIndex(after, KeyTest(first))].status == Attended
      && after[FirstIndex(after, KeyTest(first))].workoutStartedAt == Some(t1)
  {
    var first := MarkRequest(clientId, date, time, Attending, None, None);
    var second := first.(status := Attended);
    var mid := Upsert(rows, nextId, trainer, first, t1);
    var k := UpsertIndex(rows, first);
    UpsertFindsKey(rows, nextId, trainer, first, t1);
    assert KeyTest(first) == KeyTest(second);
    assert Existing(mid, second) == Some(k);
    assert UpsertIndex(mid, second) == k;
    UpsertFindsKey(mid, nextId + 1, trainer, second, t2);
  }

  /** After an upsert with unique keys, the written row is the only one with the key, so a lookup finds it. */
  lemma UpsertFindsKey(rows: seq<AttendanceRow>, nextId: Id, trainer: Id, req: MarkRequest, now: string)
    requires KeyUnique(rows)
    ensures var after := Upsert(rows, nextId, trainer, req, now);
      var k := UpsertIndex(rows, req);
      && KeyUnique(after)
      && k < |after|
      && Count(after, KeyTest(req)) == 1
      && FirstIndex(after, KeyTest(req)) == k
      && Existing(after, req) == Some(k)
      && after[k].status == req.status
      && (req.status == Attending ==> after[k].workoutStartedAt == Some(now))
      && (req.status != Attending && k < |rows| ==> after[k].workoutStartedAt == rows[k].workoutStartedAt)
  {
    var after := Upsert(rows, nextId, trainer, req, now);
    var k := UpsertIndex(rows, req);
    UpsertWrites(rows, nextId, trainer, req, now);
    UpsertKeepsKeyUnique(rows, nextId, trainer, req, now);
    OnlyAt(after, KeyTest(req), k);
  }

  // ===== getClientAttendance =====

  /** `.order('scheduled_date', desc).order('scheduled_time', desc)`. */
  predicate RecentFirst(a: AttendanceRow, b: AttendanceRow) {
    a.date > b.date || (a.date == b.date && StrLe(b.time, a.time))
  }

  lemma RecentFirstPreorder()
    ensures TotalPreorder(RecentFirst)
  {
    forall a: AttendanceRow, b: AttendanceRow ensures RecentFirst(a, b) || RecentFirst(b, a) {
      StrLeTotal(a.time, b.time);
    }
    forall a: AttendanceRow, b: AttendanceRow, c: AttendanceRow | RecentFirst(a, b) && RecentFirst(b, c)
      ensures RecentFirst(a, c)
    {
      if a.date == b.date == c.date {
        StrLeTransitive(c.time, b.time, a.time);
      }
    }
  }

  function OwnedBy(clientId: Id, trainer: Id): AttendanceRow -> bool {
    (a: AttendanceRow) => a.clientId == clientId && a.trainerId == trainer
  }

  /** `getClientAttendance(clientId, limit)`; `fault` is the store's answer to the read. */
  function GetClientAttendance(auth: Auth, rows: seq<AttendanceRow>, clientId: Id, limit: Option<nat>,
                               fault: Option<string>): (r: Result<seq<AttendanceRow>>)
    ensures auth.NoUser? ==> r == Err(NotAuthenticated)
    ensures auth.NoTrainer? ==> r == Err(TrainerNotFound)
    ensures auth.Trainer? && fault.Some? ==> r == Err(fault.value)
    ensures auth.Trainer? && fault.None? ==> r.Ok?
  {
    match ResolveTrainer(auth)
    case Err(m) => Err(m)
    case Ok(trainer) =>
      var sorted := SortBy(Filter(rows, OwnedBy(clientId, trainer)), RecentFirst);
      if fault.Some? then Err(fault.value)
      else if limit.Some? && limit.value > 0 && limit.value < |sorted| then Ok(sorted[..limit.value])
      else Ok(sorted)
  }

  /**
   * The history holds only this client's rows of this trainer, newest date
   * first and, within a date, latest time first. Without a limit (or with
   * zero) it holds every such row; with a non-zero limit it holds the
   * `limit` newest of them (all when there are fewer): that many rows,
   * each at most as often as the table has it, and no row left out is
   * newer than a row kept.
   */
  lemma ClientAttendanceOrdered(auth: Auth, rows: seq<AttendanceRow>, clientId: Id, limit: Option<nat>, fault: Option<string>)
    requires GetClientAttendance(auth, rows, clientId, limit, fault).Ok?
    ensures var h := GetClientAttendance(auth, rows, clientId, limit, fault).value;
      var owned := Filter(rows, OwnedBy(clientId, auth.id));
      && (forall a :: a in h ==> a in rows && a.clientId == clientId && a.trainerId == auth.id)
      && (forall i, j :: 0 <= i < j < |h| ==> RecentFirst(h[i], h[j]))
      && multiset(h) <= multiset(owned)
      && (limit.Some? && limit.value > 0 ==> |h| == if limit.value < |owned| then limit.value else |owned|)
      && (forall a, b :: a in h && b in multiset(owned) - multiset(h) ==> RecentFirst(a, b))
      && ((limit.None? || limit == Some(0)) ==> multiset(h) == multiset(owned))
  {
    var owned := Filter(rows, OwnedBy(clientId, auth.id));
    var sorted := SortBy(owned, RecentFirst);
    RecentFirstPreorder();
    SortBySorted(owned, RecentFirst);
    var h := GetClientAttendance(auth, rows, clientId, limit, fault).value;
    HistoryIsPrefix(auth, rows, clientId, limit, fault);
    SortedPrefix(sorted, HistoryLength(limit, |sorted|), RecentFirst);
    forall a | a in h ensures a in owned {
      assert a in multiset(h);
    }
  }

  /** How many rows `.limit(limit)` keeps of `n`: the limit when it is non-zero and smaller, else all. */
  function HistoryLength(limit: Option<nat>, n: nat): (k: nat)
    ensures k <= n
    ensures limit.Some? && limit.value > 0 ==> k == if limit.value < n then limit.value else n
    ensures limit.None? || limit == Some(0) ==> k == n
  {
    if limit.Some? && limit.value > 0 && limit.value < n then limit.value else n
  }

  lemma HistoryIsPrefix(auth: Auth, rows: seq<AttendanceRow>, clientId: Id, limit: Option<nat>, fault: Option<string>)
    requires GetClientAttendance(auth, rows, clientId, limit, fault).Ok?
    ensures var sorted := SortBy(Filter(rows, OwnedBy(clientId, auth.id)), RecentFirst);
      GetClientAttendance(auth, rows, clientId, limit, fault).value == sorted[..HistoryLength(limit, |sorted|)]
  {
  }

  // ===== getTodaySchedule =====

  /** One row of today's schedule as the action returns it. */
  datatype ScheduleEntry = ScheduleEntry(
    clientId: Id,
    clientName: string,
    programs: seq<string>,
    time: string,
    status: Status,
    attendanceId: Option<Id>,
    markedAt: Option<string>,
    workoutStartedAt: Option<string>)

  /** The `find` test: same client, and equal times once both are normalised. */
  function SlotTest(c: ClientRow, day: Weekday): AttendanceRow -> bool {
    (a: AttendanceRow) => a.clientId == c.id && NormalizeTime(a.time) == NormalizeTime(SessionTime(c, day))
  }

  /** The entry for one due client, reconciled against today's records. */
  function EntryFor(c: ClientRow, day: Weekday, records: seq<AttendanceRow>): ScheduleEntry {
    var a := Find(records, SlotTest(c, day));
    ScheduleEntry(c.id, c.name, c.programs, SessionTime(c, day),
      if a.Some? then a.value.status else Scheduled,
      if a.Some? then Some(a.value.id) else None,
      if a.Some? then a.value.createdAt else None,
      if a.Some? then a.value.workoutStartedAt else None)
  }

  /**
   * An entry shows the client's session time for the day; its status, id
   * and timestamps come from the first record of that client whose time
   * normalises to the same text, and without one the status is scheduled
   * and the rest are null.
   */
  lemma EntryFromFirstMatch(c: ClientRow, day: Weekday, records: seq<AttendanceRow>)
    ensures var e := EntryFor(c, day, records);
      var k := FirstIndex(records, SlotTest(c, day));
      && e.clientId == c.id && e.time == SessionTime(c, day)
      && (forall j :: 0 <= j < k ==> !(records[j].clientId == c.id &&
                                       NormalizeTime(records[j].time) == NormalizeTime(SessionTime(c, day))))
      && (k < |records| ==>
            && records[k].clientId == c.id
            && NormalizeTime(records[k].time) == NormalizeTime(SessionTime(c, day))
            && e.status == records[k].status && e.attendanceId == Some(records[k].id)
            && e.markedAt == records[k].createdAt && e.workoutStartedAt == records[k].workoutStartedAt)
      && (k == |records| ==>
            e.status == Scheduled && e.attendanceId == None && e.markedAt == None && e.workoutStartedAt == None)
  {
  }

  /** `a.scheduled_time.localeCompare(b.scheduled_time) <= 0`. */
  predicate ByTime(a: ScheduleEntry, b: ScheduleEntry) {
    StrLe(a.time, b.time)
  }

  lemma ByTimePreorder()
    ensures TotalPreorder(ByTime)
  {
    forall a: ScheduleEntry, b: ScheduleEntry ensures ByTime(a, b) || ByTime(b, a) {
      StrLeTotal(a.time, b.time);
    }
    forall a: ScheduleEntry, b: ScheduleEntry, c: ScheduleEntry | ByTime(a, b) && ByTime(b, c)
      ensures ByTime(a, c)
    {
      StrLeTransitive(a.time, b.time, c.time);
    }
  }

  function EntryTaker(day: Weekday, records: seq<AttendanceRow>): ClientRow -> ScheduleEntry {
    c => EntryFor(c, day, records)
  }

  /** `todayClients.map(...)` followed by the stable `schedule.sort` by time. */
  function Reconcile(clients: seq<ClientRow>, records: seq<AttendanceRow>, day: Weekday): seq<ScheduleEntry> {
    SortBy(Map(DueClients(clients, day), EntryTaker(day, records)), ByTime)
  }

  /**
   * The reconciled schedule has exactly one entry per due client (as a
   * multiset it is the due clients' entries), and is sorted by time.
   */
  lemma ReconcileSpec(clients: seq<ClientRow>, records: seq<AttendanceRow>, day: Weekday)
    ensures var s := Reconcile(clients, records, day);
      && multiset(s) == multiset(Map(DueClients(clients, day), EntryTaker(day, records)))
      && |s| == Count(clients, DueTest(day))
      && (forall e :: e in s <==> exists c :: c in clients && IsDue(c, day) && e == EntryFor(c, day, records))
      && (forall i, j :: 0 <= i < j < |s| ==> StrLe(s[i].time, s[j].time))
  {
    ReconcileSorted(clients, records, day);
    ReconcileMembers(clients, records, day);
  }

  lemma ReconcileSorted(clients: seq<ClientRow>, records: seq<AttendanceRow>, day: Weekday)
    ensures var s := Reconcile(clients, records, day);
      forall i, j :: 0 <= i < j < |s| ==> StrLe(s[i].time, s[j].time)
  {
    ByTimePreorder();
    SortBySorted(Map(DueClients(clients, day), EntryTaker(day, records)), ByTime);
  }

  lemma ReconcileMembers(clients: seq<ClientRow>, records: seq<AttendanceRow>, day: Weekday)
    ensures forall e :: e in Reconcile(clients, records, day) <==>
      exists c :: c in clients && IsDue(c, day) && e == EntryFor(c, day, records)
  {
    forall e | e in Reconcile(clients, records, day)
      ensures exists c :: c in clients && IsDue(c, day) && e == EntryFor(c, day, records)
    {
      ReconcileFromDue(clients, records, day, e);
    }
    forall c | c in clients && IsDue(c, day) ensures EntryFor(c, day, records) in Reconcile(clients, records, day) {
      ReconcileHasDue(clients, records, day, c);
    }
  }

  lemma ReconcileFromDue(clients: seq<ClientRow>, records: seq<AttendanceRow>, day: Weekday, e: ScheduleEntry)
    requires e in Reconcile(clients, records, day)
    ensures exists c :: c in clients && IsDue(c, day) && e == EntryFor(c, day, records)
  {
    var due := DueClients(clients, day);
    var m := Map(due, EntryTaker(day, records));
    SortByMember(m, ByTime, e);
    var i :| 0 <= i < |m| && m[i] == e;
    assert due[i] in due;
  }

  lemma ReconcileHasDue(clients: seq<ClientRow>, records: seq<AttendanceRow>, day: Weekday, c: ClientRow)
    requires c in clients && IsDue(c, day)
    ensures EntryFor(c, day, records) in Reconcile(clients, records, day)
  {
    var due := DueClients(clients, day);
    var m := Map(due, EntryTaker(day, records));
    var i :| 0 <= i < |due| && due[i] == c;
    assert m[i] == EntryFor(c, day, records);
    SortByMember(m, ByTime, m[i]);
  }

  function ActiveClients(clients: seq<ClientRow>, trainer: Id): seq<ClientRow> {
    Filter(clients, (c: ClientRow) => c.trainerId == trainer && !c.isArchived)
  }

  function RecordsOn(rows: seq<AttendanceRow>, trainer: Id, date: Date): seq<AttendanceRow> {
    Filter(rows, (a: AttendanceRow) => a.trainerId == trainer && a.date == date)
  }

  /**
   * `getTodaySchedule` for `today`, whose weekday is `day`. A failed read
   * of the clients gives an empty schedule; a failed read of the records
   * leaves every entry unmatched.
   */
  function GetTodaySchedule(auth: Auth, clients: seq<ClientRow>, attendance: seq<AttendanceRow>,
                            today: Date, day: Weekday, clientsReadFailed: bool, recordsReadFailed: bool)
    : (r: Result<seq<ScheduleEntry>>)
    ensures auth.NoUser? ==> r == Err(NotAuthenticated)
    ensures auth.NoTrainer? ==> r == Err(TrainerNotFound)
    ensures auth.Trainer? ==> r.Ok?
    ensures auth.Trainer? && clientsReadFailed ==> r.value == []
  {
    match ResolveTrainer(auth)
    case Err(m) => Err(m)
    case Ok(trainer) =>
      if clientsReadFailed then Ok([])
      else
        var records := if recordsReadFailed then [] else RecordsOn(attendance, trainer, today);
        Ok(Reconcile(ActiveClients(clients, trainer), records, day))
  }

  /**
   * Today's schedule lists exactly the trainer's unarchived clients due
   * today, one entry each, sorted by time.
   */
  lemma TodayScheduleSpec(auth: Auth, clients: seq<ClientRow>, attendance: seq<AttendanceRow>,
                          today: Date, day: Weekday, recordsReadFailed: bool)
    requires auth.Trainer?
    ensures var s := GetTodaySchedule(auth, clients, attendance, today, day, false, recordsReadFailed).value;
      var records := if recordsReadFailed then [] else RecordsOn(attendance, auth.id, today);
      var active := ActiveClients(clients, auth.id);
      && |s| == Count(active, DueTest(day))
      && multiset(s) == multiset(Map(DueClients(active, day), EntryTaker(day, records)))
      && (forall e :: e in s <==> exists c :: c in clients && c.trainerId == auth.id && !c.isArchived &&
                                             IsDue(c, day) && e == EntryFor(c, day, records))
      && (forall i, j :: 0 <= i < j < |s| ==> StrLe(s[i].time, s[j].time))
  {
    var records := if recordsReadFailed then [] else RecordsOn(attendance, auth.id, today);
    ReconcileSpec(ActiveClients(clients, auth.id), records, day);
  }

  /**
   * After the modal marks a due client's slot (its session time,
   * normalised) with some status, today's schedule shows that status for
   * the client; this needs stored times to be normalised, keys unique,
   * and the client's rows to belong to the trainer.
   */
  lemma {:induction false} MarkedStatusShowsToday(rows: seq<AttendanceRow>, nextId: Id, trainer: Id,
                                                  c: ClientRow, day: Weekday, today: Date, status: Status, now: string)
    requires KeyUnique(rows)
    requires forall a :: a in rows ==> IsNormalized(a.time)
    requires forall a :: a in rows && a.clientId == c.id ==> a.trainerId == trainer
    ensures var req := MarkRequest(c.id, today, NormalizeTime(SessionTime(c, day)), status, None, None);
      EntryFor(c, day, RecordsOn(Upsert(rows, nextId, trainer, req, now), trainer, today)).status == status
  {
    var req := MarkRequest(c.id, today, NormalizeTime(SessionTime(c, day)), status, None, None);
    var after := Upsert(rows, nextId, trainer, req, now);
    var k := UpsertIndex(rows, req);
    UpsertWrites(rows, nextId, trainer, req, now);
    UpsertKeepsKeyUnique(rows, nextId, trainer, req, now);
    var row := after[k];
    if k < |rows| {
      assert rows[k] in rows;
    }
    var records := RecordsOn(after, trainer, today);
    assert row in records;
    NormalizeTimeIdempotent(SessionTime(c, day));
    forall y | y in records && SlotTest(c, day)(y) ensures y == row {
      var j :| 0 <= j < |after| && after[j] == y;
    }
    FindOnly(records, SlotTest(c, day), row);
  }

  // ===== getAttendingClients =====

  /** One row of the attending list; the client columns come from the joined client, if any. */
  datatype AttendingEntry = AttendingEntry(
    clientId: Id,
    clientName: Option<string>,
    programs: Option<seq<string>>,
    time: string,
    workoutStartedAt: Option<string>,
    attendanceId: Id)

  function AttendingOf(a: AttendanceRow, clients: seq<ClientRow>): AttendingEntry {
    var c := Find(clients, (x: ClientRow) => x.id == a.clientId);
    AttendingEntry(a.clientId,
      if c.Some? then Some(c.value.name) else None,
      if c.Some? then Some(c.value.programs) else None,
      a.time, a.workoutStartedAt, a.id)
  }

  function AttendingToday(trainer: Id, today: Date): AttendanceRow -> bool {
    (a: AttendanceRow) => a.trainerId == trainer && a.date == today && a.status == Attending
  }

  /** `getAttendingClients`; a failed read gives an empty list. */
  function GetAttendingClients(auth: Auth, clients: seq<ClientRow>, attendance: seq<AttendanceRow>,
                               today: Date, readFailed: bool): (r: Result<seq<AttendingEntry>>)
    ensures auth.NoUser? ==> r == Err(NotAuthenticated)
    ensures auth.NoTrainer? ==> r == Err(TrainerNotFound)
    ensures auth.Trainer? ==> r.Ok?
  {
    match ResolveTrainer(auth)
    case Err(m) => Err(m)
    case Ok(trainer) =>
      if readFailed then Ok([])
      else Ok(Map(Filter(attendance, AttendingToday(trainer, today)), AttendingTaker(clients)))
  }

  function AttendingTaker(clients: seq<ClientRow>): AttendanceRow -> AttendingEntry {
    a => AttendingOf(a, clients)
  }

  /**
   * The columns `client:clients(*)` contributes: the name and programs of
   * a client with the row's client id, or neither when no client has it.
   */
  ghost predicate JoinedClient(e: AttendingEntry, clientId: Id, clients: seq<ClientRow>) {
    && (e.clientName.Some? <==> exists c :: c in clients && c.id == clientId)
    && e.programs.Some? == e.clientName.Some?
    && (e.clientName.Some? ==>
          exists c :: c in clients && c.id == clientId && c.name == e.clientName.value && c.programs == e.programs.value)
  }

  /** An entry carries the row's client id, time, start stamp and id, and what the join supplies. */
  ghost predicate EntryOf(e: AttendingEntry, a: AttendanceRow, clients: seq<ClientRow>) {
    && e.attendanceId == a.id && e.clientId == a.clientId
    && e.time == a.time && e.workoutStartedAt == a.workoutStartedAt
    && JoinedClient(e, a.clientId, clients)
  }

  /** `AttendingOf` copies the row's columns and joins the client by id. */
  lemma AttendingOfEntry(a: AttendanceRow, clients: seq<ClientRow>)
    ensures EntryOf(AttendingOf(a, clients), a, clients)
  {
    var p := (x: ClientRow) => x.id == a.clientId;
    var c := Find(clients, p);
    if c.None? {
      forall x | x in clients ensures x.id != a.clientId {
        var j :| 0 <= j < |clients| && clients[j] == x;
        assert !p(clients[j]);
      }
    }
  }

  /**
   * The attending list has one entry per row of the trainer dated today
   * with status attending, and no other; each entry carries that row's
   * time and start stamp, and the name and programs of its client.
   */
  lemma AttendingClientsSpec(auth: Auth, clients: seq<ClientRow>, attendance: seq<AttendanceRow>, today: Date)
    requires auth.Trainer?
    ensures var s := GetAttendingClients(auth, clients, attendance, today, false).value;
      && |s| == Count(attendance, AttendingToday(auth.id, today))
      && (forall e :: e in s ==> exists a :: a in attendance && a.trainerId == auth.id && a.date == today &&
                                             a.status == Attending && EntryOf(e, a, clients))
      && (forall a :: a in attendance && a.trainerId == auth.id && a.date == today && a.status == Attending ==>
                      exists e :: e in s && EntryOf(e, a, clients))
  {
    forall e | e in GetAttendingClients(auth, clients, attendance, today, false).value
      ensures exists a :: a in attendance && a.trainerId == auth.id && a.date == today &&
                          a.status == Attending && EntryOf(e, a, clients)
    {
      AttendingFromRow(auth.id, clients, attendance, today, e);
    }
    forall a | a in attendance && a.trainerId == auth.id && a.date == today && a.status == Attending
      ensures exists e :: e in GetAttendingClients(auth, clients, attendance, today, false).value && EntryOf(e, a, clients)
    {
      AttendingHasRow(auth.id, clients, attendance, today, a);
    }
  }

  lemma AttendingFromRow(trainer: Id, clients: seq<ClientRow>, attendance: seq<AttendanceRow>, today: Date, e: AttendingEntry)
    requires e in Map(Filter(attendance, AttendingToday(trainer, today)), AttendingTaker(clients))
    ensures exists a :: a in attendance && a.trainerId == trainer && a.date == today &&
                        a.status == Attending && EntryOf(e, a, clients)
  {
    var rows := Filter(attendance, AttendingToday(trainer, today));
    var s := Map(rows, AttendingTaker(clients));
    var i :| 0 <= i < |s| && s[i] == e;
    assert rows[i] in rows;
    AttendingOfEntry(rows[i], clients);
  }

  lemma AttendingHasRow(trainer: Id, clients: seq<ClientRow>, attendance: seq<AttendanceRow>, today: Date, a: AttendanceRow)
    requires a in attendance && a.trainerId == trainer && a.date == today && a.status == Attending
    ensures exists e :: e in Map(Filter(attendance, AttendingToday(trainer, today)), AttendingTaker(clients)) &&
                        EntryOf(e, a, clients)
  {
    var rows := Filter(attendance, AttendingToday(trainer, today));
    var s := Map(rows, AttendingTaker(clients));
    assert a in rows;
    var i :| 0 <= i < |rows| && rows[i] == a;
    AttendingOfEntry(a, clients);
    assert s[i] == AttendingOf(a, clients) && s[i] in s;
  }

  // ===== getUpcomingSchedule =====

  datatype UpcomingEntry = UpcomingEntry(date: Date, clientId: Id, clientName: string, time: string)

  function UpcomingOn(c: ClientRow, date: Date, day: Weekday): UpcomingEntry {
    UpcomingEntry(date, c.id, c.name, SessionTime(c, day))
  }

  /** The entries one pass of the inner `forEach` pushes, in client order. */
  function DayEntries(clients: seq<ClientRow>, date: Date, day: Weekday): seq<UpcomingEntry>
    decreases |clients|
  {
    if clients == [] then []
    else
      var last := clients[|clients| - 1];
      DayEntries(clients[..|clients| - 1], date, day) + (if IsDue(last, day) then [UpcomingOn(last, date, day)] else [])
  }

  /** The entries of the first `days` days starting at `today`, whose weekday is `day`. */
  function Upcoming(clients: seq<ClientRow>, today: Date, day: Weekday, days: int): seq<UpcomingEntry>
    decreases days
  {
    if days <= 0 then []
    else Upcoming(clients, today, day, days - 1) + DayEntries(clients, today + days - 1, Advance(day, days - 1))
  }

  /** `e` is the entry of a client in `clients` due on weekday `day`, dated `date`. */
  ghost predicate DueEntry(clients: seq<ClientRow>, date: Date, day: Weekday, e: UpcomingEntry) {
    exists c :: c in clients && IsDue(c, day) && e == UpcomingOn(c, date, day)
  }

  lemma {:induction false} DayEntriesMember(clients: seq<ClientRow>, date: Date, day: Weekday, e: UpcomingEntry)
    ensures e in DayEntries(clients, date, day) <==> DueEntry(clients, date, day, e)
    decreases |clients|
  {
    if clients != [] {
      var init := clients[..|clients| - 1];
      var last := clients[|clients| - 1];
      DayEntriesMember(init, date, day, e);
      DueEntryLast(clients, date, day, e);
      var tail := if IsDue(last, day) then [UpcomingOn(last, date, day)] else [];
      assert DayEntries(clients, date, day) == DayEntries(init, date, day) + tail;
      assert e in DayEntries(init, date, day) + tail <==> e in DayEntries(init, date, day) || e in tail;
    }
  }

  /** A client list's due entries are those of all but its last client, and the last one's. */
  lemma DueEntryLast(clients: seq<ClientRow>, date: Date, day: Weekday, e: UpcomingEntry)
    requires clients != []
    ensures var last := clients[|clients| - 1];
      DueEntry(clients, date, day, e) <==>
        DueEntry(clients[..|clients| - 1], date, day, e) || (IsDue(last, day) && e == UpcomingOn(last, date, day))
  {
    var init := clients[..|clients| - 1];
    var last := clients[|clients| - 1];
    assert clients == init + [last];
    if DueEntry(clients, date, day, e) {
      var c :| c in clients && IsDue(c, day) && e == UpcomingOn(c, date, day);
      if c != last {
        assert c in init;
      }
    }
    if DueEntry(init, date, day, e) {
      var c :| c in init && IsDue(c, day) && e == UpcomingOn(c, date, day);
      assert c in clients;
    }
  }

  /** The entry the lookahead lists for client `c` on day offset `i`. */
  function UpcomingAt(c: ClientRow, today: Date, day: Weekday, i: nat): UpcomingEntry {
    UpcomingOn(c, today + i, Advance(day, i))
  }

  /** `e` is the entry of a client due `i` days after `today`. */
  ghost predicate DueAtOffset(clients: seq<ClientRow>, today: Date, day: Weekday, i: nat, e: UpcomingEntry) {
    DueEntry(clients, today + i, Advance(day, i), e)
  }

  /** `e` is listed for some day offset below `days`. */
  ghost predicate ListedWithin(clients: seq<ClientRow>, today: Date, day: Weekday, days: int, e: UpcomingEntry) {
    exists i: nat :: i < days && DueAtOffset(clients, today, day, i, e)
  }

  /** The day after the first `k` days of a lookahead adds the entries due on that day. */
  lemma UpcomingLastDay(clients: seq<ClientRow>, today: Date, day: Weekday, k: nat, e: UpcomingEntry)
    ensures e in Upcoming(clients, today, day, k + 1) <==>
      e in Upcoming(clients, today, day, k) || DueAtOffset(clients, today, day, k, e)
  {
    var prev := Upcoming(clients, today, day, k);
    var last := DayEntries(clients, today + k, Advance(day, k));
    UpcomingStep(clients, today, day, k);
    assert Upcoming(clients, today, day, k + 1) == prev + last;
    DayEntriesMember(clients, today + k, Advance(day, k), e);
    assert e in last <==> DueAtOffset(clients, today, day, k, e);
    assert e in prev + last <==> e in prev || e in last;
  }

  /** An entry listed within `k + 1` days is listed within `k` days or due on day offset `k`. */
  lemma ListedWithinStep(clients: seq<ClientRow>, today: Date, day: Weekday, k: nat, e: UpcomingEntry)
    ensures ListedWithin(clients, today, day, k + 1, e) <==>
      ListedWithin(clients, today, day, k, e) || DueAtOffset(clients, today, day, k, e)
  {
    if ListedWithin(clients, today, day, k + 1, e) {
      var i: nat :| i < k + 1 && DueAtOffset(clients, today, day, i, e);
      if i < k {
        ListedAt(clients, today, day, k, i, e);
      }
    }
    if DueAtOffset(clients, today, day, k, e) {
      ListedAt(clients, today, day, k + 1, k, e);
    }
    if ListedWithin(clients, today, day, k, e) {
      var i: nat :| i < k && DueAtOffset(clients, today, day, i, e);
      ListedAt(clients, today, day, k + 1, i, e);
    }
  }

  lemma ListedAt(clients: seq<ClientRow>, today: Date, day: Weekday, days: int, i: nat, e: UpcomingEntry)
    requires i < days && DueAtOffset(clients, today, day, i, e)
    ensures ListedWithin(clients, today, day, days, e)
  {
  }

  /**
   * The lookahead is empty for `days <= 0`; otherwise an entry is listed
   * exactly when, for some offset `i` below `days`, it is the entry of a
   * client due on the weekday of `today + i`, dated `today + i`, with that
   * client's session time for the day.
   */
  lemma {:induction false} UpcomingMember(clients: seq<ClientRow>, today: Date, day: Weekday, days: int, e: UpcomingEntry)
    ensures days <= 0 ==> Upcoming(clients, today, day, days) == []
    ensures e in Upcoming(clients, today, day, days) <==> ListedWithin(clients, today, day, days, e)
    decreases days
  {
    if days > 0 {
      var k: nat := days - 1;
      UpcomingMember(clients, today, day, k, e);
      UpcomingLastDay(clients, today, day, k, e);
      ListedWithinStep(clients, today, day, k, e);
      assert k + 1 == days;
    }
  }

  /** Spelled out: client `c` due `i` days after today appears, with its session time for that weekday. */
  lemma UpcomingListsDueClient(clients: seq<ClientRow>, today: Date, day: Weekday, days: int, c: ClientRow, i: nat)
    requires c in clients && i < days && IsDue(c, Advance(day, i))
    ensures UpcomingAt(c, today, day, i) in Upcoming(clients, today, day, days)
    ensures UpcomingAt(c, today, day, i).time == SessionTime(c, Advance(day, i))
  {
    var e := UpcomingAt(c, today, day, i);
    assert DueAtOffset(clients, today, day, i, e);
    assert ListedWithin(clients, today, day, days, e);
    UpcomingMember(clients, today, day, days, e);
  }

  lemma {:induction false} DayEntriesDated(clients: seq<ClientRow>, date: Date, day: Weekday)
    ensures forall e :: e in DayEntries(clients, date, day) ==> e.date == date
    decreases |clients|
  {
    if clients != [] {
      DayEntriesDated(clients[..|clients| - 1], date, day);
    }
  }

  /** Every listed entry is dated within `[today, today + days)`. */
  lemma UpcomingDates(clients: seq<ClientRow>, today: Date, day: Weekday, days: int, e: UpcomingEntry)
    requires e in Upcoming(clients, today, day, days)
    ensures today <= e.date < today + days
  {
    UpcomingMember(clients, today, day, days, e);
    var i: nat :| i < days && DueAtOffset(clients, today, day, i, e);
    var c :| c in clients && IsDue(c, Advance(day, i)) && e == UpcomingOn(c, today + i, Advance(day, i));
  }

  /** Dates never decrease along the list. */
  ghost predicate DatesOrdered(s: seq<UpcomingEntry>) {
    forall i, j :: 0 <= i < j < |s| ==> s[i].date <= s[j].date
  }

  /** Appending a day's entries after earlier days keeps the dates in order. */
  lemma DatesOrderedAppend(prev: seq<UpcomingEntry>, last: seq<UpcomingEntry>, d: Date)
    requires DatesOrdered(prev)
    requires forall e :: e in last ==> e.date == d
    requires forall e :: e in prev ==> e.date < d
    ensures DatesOrdered(prev + last)
  {
    var s := prev + last;
    forall i, j | 0 <= i < j < |s| ensures s[i].date <= s[j].date {
      if j < |prev| {
        assert s[i] == prev[i] && s[j] == prev[j];
      } else {
        assert s[j] == last[j - |prev|] && last[j - |prev|] in last;
        if i < |prev| {
          assert s[i] == prev[i] && prev[i] in prev;
        } else {
          assert s[i] == last[i - |prev|] && last[i - |prev|] in last;
        }
      }
    }
  }

  /** The lookahead lists days in order. */
  lemma {:induction false} UpcomingDateOrdered(clients: seq<ClientRow>, today: Date, day: Weekday, days: int)
    ensures DatesOrdered(Upcoming(clients, today, day, days))
    decreases days
  {
    if days > 0 {
      var k: nat := days - 1;
      UpcomingDateOrdered(clients, today, day, k);
      UpcomingOrderedStep(clients, today, day, k);
      assert k + 1 == days;
    }
  }

  /** One more day appends entries dated after every earlier one. */
  lemma UpcomingOrderedStep(clients: seq<ClientRow>, today: Date, day: Weekday, k: nat)
    requires DatesOrdered(Upcoming(clients, today, day, k))
    ensures DatesOrdered(Upcoming(clients, today, day, k + 1))
  {
    var prev := Upcoming(clients, today, day, k);
    var last := DayEntries(clients, today + k, Advance(day, k));
    UpcomingStep(clients, today, day, k);
    DayEntriesDated(clients, today + k, Advance(day, k));
    EarlierDaysBefore(clients, today, day, k);
    DatesOrderedAppend(prev, last, today + k);
  }

  /** The entries of the first `k` days are all dated before day offset `k`. */
  lemma EarlierDaysBefore(clients: seq<ClientRow>, today: Date, day: Weekday, k: nat)
    ensures forall e :: e in Upcoming(clients, today, day, k) ==> e.date < today + k
  {
    forall e | e in Upcoming(clients, today, day, k) ensures e.date < today + k {
      UpcomingDates(clients, today, day, k, e);
    }
  }

  lemma DayEntriesStep(clients: seq<ClientRow>, j: nat, date: Date, day: Weekday)
    requires j < |clients|
    ensures DayEntries(clients[..j + 1], date, day) ==
      DayEntries(clients[..j], date, day) + (if IsDue(clients[j], day) then [UpcomingOn(clients[j], date, day)] else [])
  {
    assert clients[..j + 1][..j] == clients[..j];
  }

  lemma UpcomingStep(clients: seq<ClientRow>, today: Date, day: Weekday, i: nat)
    ensures Upcoming(clients, today, day, i + 1) ==
      Upcoming(clients, today, day, i) + DayEntries(clients, today + i, Advance(day, i))
  {
  }

  /** The pattern test as `getUpcomingSchedule` writes it, an if/else-if chain. */
  method IsScheduledOn(c: ClientRow, day: Weekday) returns (scheduled: bool)
    ensures scheduled == IsDue(c, day)
  {
    scheduled := false;
    if c.scheduleSet == SundaySet && day in [Sun, Tue, Thu] {
      scheduled := true;
    } else if c.scheduleSet == SaturdaySet && day in [Sat, Mon, Wed] {
      scheduled := true;
    } else if c.scheduleSet == CustomSet && day in c.customDays {
      scheduled := true;
    }
  }

  /** The inner `forEach` of `getUpcomingSchedule`: push every client due on `dayOfWeek`, in order. */
  method PushDueClients(active: seq<ClientRow>, date: Date, dayOfWeek: Weekday, schedule: seq<UpcomingEntry>)
    returns (pushed: seq<UpcomingEntry>)
    ensures pushed == schedule + DayEntries(active, date, dayOfWeek)
  {
    pushed := schedule;
    var j := 0;
    while j < |active|
      invariant 0 <= j <= |active|
      invariant pushed == schedule + DayEntries(active[..j], date, dayOfWeek)
    {
      var client := active[j];
      var isScheduled := IsScheduledOn(client, dayOfWeek);
      if isScheduled {
        pushed := pushed + [UpcomingOn(client, date, dayOfWeek)];
      }
      DayEntriesStep(active, j, date, dayOfWeek);
      j := j + 1;
    }
    assert active[..j] == active;
  }

  /**
   * How many times `for (let i = 0; i < days; i++)` runs for a finite
   * numeric `days`: the least natural number not below it, so none for a
   * non-positive value and the ceiling of a fractional one.
   */
  function LoopCount(days: real): (n: nat)
    ensures n as real >= days
    ensures n > 0 ==> ((n - 1) as real) < days
  {
    if days <= 0.0 then 0 else -((-days).Floor)
  }

  /** The loop guard `i < days` holds exactly for the offsets below `LoopCount(days)`. */
  lemma LoopGuard(days: real, i: nat)
    ensures (i as real) < days <==> i < LoopCount(days)
  {
  }

  /**
   * `getUpcomingSchedule(days)`: for each day offset, then for each of the
   * trainer's unarchived clients, push an entry when the client is due.
   * A failed read of the clients gives an empty list.
   */
  method GetUpcomingSchedule(auth: Auth, clients: seq<ClientRow>, today: Date, day: Weekday, days: real,
                             readFailed: bool) returns (r: Result<seq<UpcomingEntry>>)
    ensures auth.NoUser? ==> r == Err(NotAuthenticated)
    ensures auth.NoTrainer? ==> r == Err(TrainerNotFound)
    ensures auth.Trainer? && readFailed ==> r == Ok([])
    ensures auth.Trainer? && !readFailed ==> r == Ok(Upcoming(ActiveClients(clients, auth.id), today, day, LoopCount(days)))
  {
    if auth.NoUser? {
      return Err(NotAuthenticated);
    }
    if auth.NoTrainer? {
      return Err(TrainerNotFound);
    }
    if readFailed {
      return Ok([]);
    }
    var schedule := LookAhead(ActiveClients(clients, auth.id), today, day, days);
    r := Ok(schedule);
  }

  /** The outer loop of `getUpcomingSchedule`: one pass over the clients per day offset. */
  method LookAhead(active: seq<ClientRow>, today: Date, day: Weekday, days: real) returns (schedule: seq<UpcomingEntry>)
    ensures schedule == Upcoming(active, today, day, LoopCount(days))
  {
    schedule := [];
    var i: nat := 0;
    while (i as real) < days
      invariant i <= LoopCount(days)
      invariant schedule == Upcoming(active, today, day, i)
      decreases LoopCount(days) - i
    {
      LoopGuard(days, i);
      UpcomingStep(active, today, day, i);
      schedule := PushDueClients(active, today + i, Advance(day, i), schedule);
      i := i + 1;
    }
    LoopGuard(days, i);
  }
}
