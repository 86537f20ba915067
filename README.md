# fitbase scheduling and attendance, modelled in Dafny

fitbase is a web app for a personal trainer. Each client trains on a weekly
pattern: the Sunday set (sun, tue, thu), the Saturday set (sat, mon, wed),
or a custom list of days. Each training day has a session time, `09:00`
when none is set. The app shows which clients are due today. It reconciles
them with the attendance rows already stored for today and sorts them by
time. A modal moves a session between scheduled, attending, attended and
missed. A month calendar shows a client's attendance history. New clients
come in through a two-step form (a 7-digit Maldives phone number, then the
details), and they are kept in a `clients` table with an archive flag.
Price tiers (Bronze, Silver, Gold) are seeded once per trainer.

The model stands in for each store table with a sequence of rows.

- Each `.eq` filter is a `Filter`. `.order` and JavaScript's stable `sort`
  are one stable insertion sort, `Seqs.SortBy`.
- `.single()` and `.maybeSingle()` find a row only when exactly one matches.
- Inserts append a row whose id comes from a counter.
- Auth is `Auth = NoUser | NoTrainer | Trainer(id)`, covering the two guard
  clauses that open every server action.
- Store errors are parameters: a message for writes, and a flag
  (`readFailed`) for reads whose errors the code ignores. This includes
  the duplicate probes of `markAttendance`, `createClientAction` and
  `createDefaultTiers`: a failed probe reads as "no row", so the action
  inserts. Unique attendance keys and unique phones are therefore kept
  only when the probe works, and the tables' invariants hold only ids.
- Today's date and weekday are parameters.

State that the source updates in place is modelled with classes:
`Attendance.AttendanceTable`, `Clients.ClientTable` and `Tiers.TierTable`.
Each class's methods are proved against a function of the old rows. The
loops of the source stay loops:

- the N-day expansion of `getUpcomingSchedule`;
- the `reduce` that groups sessions by time;
- the two loops that build the calendar cells;
- the `forEach` that fills `sessionTimes`.

The rest is functions and lemmas.

Modules:

- `Basics`: Option, Result, weekdays, statuses, auth, and string helpers.
- `Seqs`: filter, count, find, stable sort, code-point string order.
- `Records`: the row shapes.
- `TimeFormat`: `normalizeTime`.
- `Schedule`: the weekday rule and session times.
- `Attendance`: `src/actions/attendance.ts`.
- `HomePage`: `src/app/page.tsx`.
- `AttendanceModal`: `AttendanceModal.tsx`.
- `AttendanceCalendar`: `AttendanceCalendar.tsx`, with a Gregorian day count
  standing in for JavaScript `Date`.
- `Clients`: `src/actions/clients.ts`.
- `AddClientForm`: `AddClientForm.tsx`.
- `Tiers`: `src/actions/tiers.ts`.
- `ClientsPage`: `src/app/clients/page.tsx`.
- `BottomNav`: `BottomNav.tsx`.

Two facts from the code are kept as written:

- `markAttendance` does not normalise the time it is given. Its caller, the
  modal, does.
- `markAttendance` takes no workout id, so the workout the modal passes is
  never stored.

## Model

| member | source | states |
|---|---|---|
| Basics.ResolveTrainer | src/actions/attendance.ts:16-25 | no user gives 'Not authenticated', no trainer row gives 'Trainer not found', otherwise the trainer's id; every action starts with this |
| Basics.NullIfEmpty | src/actions/attendance.ts:37-38 | `x \|\| null`: absent and empty both become null, any other text is kept |
| TimeFormat.NormalizeTime | src/app/page.tsx:54-59 | a 5-character time becomes itself plus ":00" (8 characters); any other length is returned unchanged |
| TimeFormat.NormalizeTimeNormalizes | src/components/attendance/AttendanceModal.tsx:37-42 | the result never has length 5, and a string is left unchanged exactly when its length is not 5 |
| TimeFormat.NormalizeTimeIdempotent | src/app/page.tsx:54-59 | normalising twice equals normalising once |
| TimeFormat.NormalizedEqual | src/actions/attendance.ts:160-164 | when two times normalise to the same text, spelled out by their lengths |
| Schedule.IsDueIffPatternDay | src/actions/attendance.ts:139-150 | a client is due on a weekday iff the day is in its pattern's day set ({sun,tue,thu}, {sat,mon,wed} or its custom days) |
| Schedule.FixedPatternsPartitionWeek | src/app/page.tsx:87-98 | the Sunday and Saturday sets are disjoint and together cover every day but Friday |
| Schedule.SessionTime | src/actions/attendance.ts:159 | the day's stored time when present and non-empty, else '09:00'; never empty |
| Schedule.DueClients | src/app/page.tsx:87-98 | the due clients are an order-preserving subsequence, holding exactly the clients due that day |
| Schedule.DueDaysPerWeek | src/actions/attendance.ts:250-265 | any seven consecutive days hold exactly as many due days as the pattern has days (3 for the fixed sets) |
| Attendance.Existing | src/actions/attendance.ts:27-33 | the `.maybeSingle()` probe: a found index holds the exact (client, date, time) key and no other row does |
| Attendance.ExistingAbsent | src/actions/attendance.ts:27-33 | when keys are unique, the probe finds nothing iff no row has the key |
| Attendance.UpsertWrites | src/actions/attendance.ts:35-65 | update in place (count unchanged) or one insert owned by the trainer; status as requested; reschedule fields or null; `workout_started_at` set only for attending, otherwise kept; every other row unchanged |
| Attendance.UpsertKeepsKeyUnique | src/actions/attendance.ts:27-65 | the upsert keeps keys unique, and afterwards exactly one row has the requested key |
| Attendance.InsertKeepsKeyUnique | src/actions/attendance.ts:27-33 | the insert a failed probe falls back to keeps keys unique iff no row already had the key |
| Attendance.InsertKeepsIds | src/actions/attendance.ts:53-62 | appending a row with the next id keeps ids distinct and below the advanced generator |
| Attendance.UpsertKeepsIds | src/actions/attendance.ts:47-65 | the upsert keeps row ids pairwise distinct and below the next id; an insert takes the next id |
| Attendance.PatchAtIndexIsById | src/actions/attendance.ts:47-50 | with distinct ids, patching the found row by its index is the same as the store's `.update(...).eq('id', existing.id)` |
| Attendance.HistoryIsPrefix | src/actions/attendance.ts:89-99 | the history is the first min(`limit`, owned) rows of the owned rows ordered newest first |
| Attendance.AttendanceTable.MarkAttendance | src/actions/attendance.ts:6-73 | auth errors and store errors are returned verbatim with no write; with a working probe, success leaves the table equal to the upsert of the old one (when a row existed, the store's update by id) and keeps one row per client, date and time; after a failed probe, success appends a new row, which keeps keys unique iff no row had the key; ids stay distinct and below the next id either way |
| Attendance.AttendingThenAttended | src/actions/attendance.ts:35-50 | marking attending then attended leaves one row for the slot, attended, with the start time of the first call |
| Attendance.GetClientAttendance | src/actions/attendance.ts:75-105 | auth errors first, then the store error verbatim, otherwise a listing |
| Attendance.ClientAttendanceOrdered | src/actions/attendance.ts:89-101 | the history is a sub-multiset of that client's rows of this trainer, newest date first and latest time first within a date; with a positive `limit` it holds exactly min(`limit`, owned) rows and no row left out is newer than a row kept; without a limit (or `0`, which is falsy) it holds all of them |
| Attendance.EntryFromFirstMatch | src/actions/attendance.ts:158-177 | an entry takes status, id and timestamps from the first record of the client with an equal normalised time; with none it is scheduled with null fields |
| Attendance.ReconcileSpec | src/actions/attendance.ts:139-179 | one entry per due client (same count, same multiset), an entry exists iff a due client yields it, and the list is sorted by time |
| Attendance.GetTodaySchedule | src/actions/attendance.ts:107-182 | auth errors first; a failed client read gives an empty list; otherwise a schedule |
| Attendance.TodayScheduleSpec | src/actions/attendance.ts:124-181 | the schedule lists exactly the trainer's active clients due today, one entry per due client (same count, same multiset of entries), each with its first matching record of today, sorted by time |
| Attendance.MarkedStatusShowsToday | src/components/attendance/AttendanceModal.tsx:48-56 | after the modal marks a due client's normalised slot, today's schedule shows the new status for that client |
| Attendance.GetAttendingClients | src/actions/attendance.ts:184-223 | auth errors first, otherwise a listing |
| Attendance.AttendingClientsSpec | src/actions/attendance.ts:201-220 | one entry per attendance row of the trainer for today with status attending, and no other; each entry carries its row's id, client id, time and start stamp, and the name and programs of a client with that id (neither when there is none) |
| Attendance.AttendingOfEntry | src/actions/attendance.ts:202-218 | the mapped entry copies the row's columns and takes name and programs from the joined client, or none when no client has the id |
| Attendance.UpcomingMember | src/actions/attendance.ts:250-277 | empty for `days <= 0`; an entry is listed iff it is a due client's entry on one of the first `days` days |
| Attendance.UpcomingListsDueClient | src/actions/attendance.ts:256-275 | a client due on day i < days is listed on that date with its resolved time |
| Attendance.UpcomingDates | src/actions/attendance.ts:250-253 | every listed date lies in [today, today + days) |
| Attendance.UpcomingDateOrdered | src/actions/attendance.ts:250-277 | entries come in day-offset order |
| Attendance.IsScheduledOn | src/actions/attendance.ts:257-265 | the `isScheduled` flag equals the weekday rule |
| Attendance.PushDueClients | src/actions/attendance.ts:256-276 | the inner `forEach` appends exactly that day's due entries, in client order |
| Attendance.LoopCount | src/actions/attendance.ts:250 | `i < days` runs for the least natural number not below `days`: none for a non-positive value, the ceiling of a fractional one |
| Attendance.LoopGuard | src/actions/attendance.ts:250 | the guard `i < days` holds exactly for the offsets below `LoopCount(days)` |
| Attendance.LookAhead | src/actions/attendance.ts:250-277 | the day-offset loop, for a real `days`, builds exactly the expansion over `LoopCount(days)` days: each day's due entries appended in day order |
| Attendance.GetUpcomingSchedule | src/actions/attendance.ts:225-280 | auth errors first; a failed read gives []; otherwise the loop's list equals the expansion over `LoopCount(days)` days of the active clients, fractional `days` included |
| HomePage.LoadTodaySchedule | src/app/page.tsx:61-129 | without a user or trainer the state is kept; a failed client read empties it |
| HomePage.PageMatchesAction | src/app/page.tsx:61-129 | for a trainer, the page computes the same schedule as `getTodaySchedule`; both copies of the reconciliation are modelled by the one function `Attendance.Reconcile`, so this holds by construction |
| HomePage.WithStatus | src/app/page.tsx:144-147 | each status list is an order-preserving filter holding exactly the entries of that status |
| HomePage.Summarize | src/app/page.tsx:144-150 | each list holds exactly the sessions with its status; the attended count is the number of attended sessions and the total counts every session, so attended never exceeds it |
| HomePage.StatusListsPartition | src/app/page.tsx:144-147 | the four lists plus the rescheduled entries add up to the whole schedule |
| HomePage.SummaryLists | src/app/page.tsx:144-147 | the lists are pairwise disjoint, rescheduled entries are in none, and every other entry is in one |
| HomePage.GroupBySlot | src/app/page.tsx:152-158 | the keys are exactly the times present; each group is the in-order filter of sessions at that time; the key list is duplicate-free |
| HomePage.TimeSlotsOrdered | src/app/page.tsx:160 | the slot headings hold every key once, in increasing order |
| AttendanceModal.CurrentStatus | src/components/attendance/AttendanceModal.tsx:30 | an omitted status reads as scheduled |
| AttendanceModal.Heading | src/components/attendance/AttendanceModal.tsx:109-111 | "Complete Session" iff attending, otherwise "Mark Attendance" |
| AttendanceModal.OfferedTargetsByStatus | src/components/attendance/AttendanceModal.tsx:141-278 | scheduled offers {attending, missed}; attending offers {attended, scheduled}; attended and missed offer {scheduled}; rescheduled offers nothing; Cancel is always last |
| AttendanceModal.OfferedTargetsShape | src/components/attendance/AttendanceModal.tsx:66-73 | rescheduled is never written, the current status is never re-offered, and every reachable non-scheduled status offers a way back to scheduled |
| AttendanceModal.ModalRequest | src/components/attendance/AttendanceModal.tsx:44-56 | the request carries the client, the date and the status, the time normalised, and no reschedule fields |
| AttendanceModal.AfterMark | src/components/attendance/AttendanceModal.tsx:58-63 | an error is shown iff the action failed with a non-empty message, which is shown; success and an empty message close the modal |
| AttendanceCalendar.EffectiveYear | src/components/attendance/AttendanceCalendar.tsx:22-23 | `new Date(y, …)` reads years 0..99 as 1900 + y |
| AttendanceCalendar.MonthLength | src/components/attendance/AttendanceCalendar.tsx:22 | Gregorian month lengths, 28..31, with February 29 exactly in leap years |
| AttendanceCalendar.MonthsFillYear | src/components/attendance/AttendanceCalendar.tsx:22 | the twelve months add up to the year's length |
| AttendanceCalendar.YearStep | src/components/attendance/AttendanceCalendar.tsx:87-88 | consecutive years' day numbers differ by the year's length |
| AttendanceCalendar.DaysInMonth | src/components/attendance/AttendanceCalendar.tsx:22 | `new Date(year, month, 0).getDate()` lies in 28..31 |
| AttendanceCalendar.FirstDayOfMonth | src/components/attendance/AttendanceCalendar.tsx:23 | `getDay()` of the 1st lies in 0..6, with 0 for Sunday |
| AttendanceCalendar.PlainMonth | src/components/attendance/AttendanceCalendar.tsx:22-23 | outside years 0..99, day 0 of the next month is the last day of this month, so `daysInMonth` is the month's length |
| AttendanceCalendar.DayZeroIsLastOfPreviousMonth | src/components/attendance/AttendanceCalendar.tsx:22 | day `daysInMonth` of the month is followed by the 1st of the next month |
| AttendanceCalendar.NextMonthFirstDay | src/components/attendance/AttendanceCalendar.tsx:22-23 | the next month starts `daysInMonth` weekdays after this one |
| AttendanceCalendar.BuildCalendarDays | src/components/attendance/AttendanceCalendar.tsx:28-38 | `firstDay` nulls, then 1..`daysInMonth` in order; length `firstDay + daysInMonth` |
| AttendanceCalendar.WeeksNeeded | src/components/attendance/AttendanceCalendar.tsx:93-94 | ceil(total/7): 7w >= total and 7(w-1) < total |
| AttendanceCalendar.GridCoversCells | src/components/attendance/AttendanceCalendar.tsx:111-115 | every day of the month sits at a grid cell whose row is below `weeksNeeded` and whose column is its weekday |
| AttendanceCalendar.AttendanceForDay | src/components/attendance/AttendanceCalendar.tsx:40-43 | null (or 0) cells give nothing; otherwise the first entry for that day, or nothing when there is none |
| AttendanceCalendar.ColorIconAgree | src/components/attendance/AttendanceCalendar.tsx:45-75 | no icon exactly when the colour is the neutral one, exactly for scheduled and unknown statuses; distinct known statuses other than scheduled get distinct colours |
| AttendanceCalendar.IsToday | src/components/attendance/AttendanceCalendar.tsx:78-83 | false for null cells; otherwise true iff date, month and year all match today |
| AttendanceCalendar.IsPast | src/components/attendance/AttendanceCalendar.tsx:85-90 | false for null cells |
| AttendanceCalendar.TodayIsNotPast | src/components/attendance/AttendanceCalendar.tsx:78-90 | a day that is today is never past |
| AttendanceCalendar.PastInShownMonth | src/components/attendance/AttendanceCalendar.tsx:85-90 | within today's month, a day is past iff it is before today's date |
| Clients.CreateResultSpec | src/actions/clients.ts:35-64 | with phones unique per trainer and a working probe, a duplicate phone is rejected; after a failed probe, or with no duplicate, the answer is the store error or the new row, which belongs to the caller, has custom days defaulting to [], and is not archived |
| Clients.CreateKeepsPhonesUnique | src/actions/clients.ts:35-60 | a created client keeps phones unique per trainer iff the trainer had no client with that phone, which a working probe ensures |
| Clients.ClientTable.CreateClient | src/actions/clients.ts:6-68 | auth errors come before any read or write; the table grows by the new row only on success; phones stay unique when the probe works |
| Clients.Archived | src/actions/clients.ts:103-106 | the rows with the id get `is_archived` true and a timestamp; every other row is unchanged |
| Clients.Unarchived | src/actions/clients.ts:120-123 | the rows with the id get false and null; every other row is unchanged |
| Clients.Deleted | src/actions/clients.ts:136-139 | an order-preserving subsequence without the rows of that id |
| Clients.ArchiveThenUnarchive | src/actions/clients.ts:98-130 | archive then unarchive equals unarchive alone |
| Clients.UnarchiveFresh | src/actions/clients.ts:115-130 | unarchiving a never-archived row changes nothing |
| Clients.ArchiveKeepsPhonesUnique | src/actions/clients.ts:103-106 | archiving keeps phones unique per trainer |
| Clients.UnarchiveKeepsPhonesUnique | src/actions/clients.ts:120-123 | unarchiving keeps phones unique per trainer |
| Clients.DeleteKeepsPhonesUnique | src/actions/clients.ts:136-139 | deleting keeps phones unique per trainer |
| Clients.ClientTable.ArchiveClient | src/actions/clients.ts:98-113 | no ownership check; a store error is returned verbatim with no change; success archives by id; phones stay unique |
| Clients.ClientTable.UnarchiveClient | src/actions/clients.ts:115-130 | no ownership check; a store error is returned verbatim with no change; success unarchives by id; phones stay unique |
| Clients.ClientTable.DeleteClient | src/actions/clients.ts:132-144 | no ownership check; a store error is returned verbatim with no change; success deletes by id; phones stay unique |
| Clients.GetClients | src/actions/clients.ts:70-96 | auth errors first; then the store error verbatim |
| Clients.GetClientsSpec | src/actions/clients.ts:84-92 | exactly the trainer's clients with the requested archived flag, each as often as stored, ordered by name |
| AddClientForm.FormatPhone | src/components/clients/AddClientForm.tsx:103-108 | only digits, at most 7: all the digits when there are at most seven, else the first seven |
| AddClientForm.FormatPhoneIdempotent | src/components/clients/AddClientForm.tsx:103-108 | formatting is idempotent |
| AddClientForm.ValidatePhoneSpec | src/components/clients/AddClientForm.tsx:85-101 | valid iff the text holds exactly seven digit characters and the first of them is 7, 9 or 3; a valid number formats to its digits |
| AddClientForm.PhoneSubmitSpec | src/components/clients/AddClientForm.tsx:110-137 | checks in this order: empty gives "required", then invalid gives the format error, then an existing '+960' number gives the duplicate error; it advances only with a formatted, valid, unused number |
| AddClientForm.DayTime | src/components/clients/AddClientForm.tsx:157-169 | the shared time when `sameTimeAllDays`, else the day's own time if non-empty, else the shared time |
| AddClientForm.BuildSessionTimes | src/components/clients/AddClientForm.tsx:153-171 | keys are {sun,tue,thu}, {sat,mon,wed}, or the custom days, and each value is that day's time |
| AddClientForm.HandleSubmit | src/components/clients/AddClientForm.tsx:139-181 | a missing name, phone or program is rejected first, then custom with no days; otherwise the payload is sent |
| AddClientForm.SubmittedClient | src/components/clients/AddClientForm.tsx:173-181 | the payload has phone '+960'+phone, custom days only for a custom schedule ([] otherwise), and session times keyed by the chosen days |
| AddClientForm.SubmittedClientSchedule | src/components/clients/AddClientForm.tsx:153-181 | the created client is due exactly on the chosen days, each with the time the form submitted ('09:00' where that was empty) |
| AddClientForm.AfterSubmit | src/components/clients/AddClientForm.tsx:183-189 | an error is shown iff the create failed with a non-empty message; success and an empty message go to the client list |
| AddClientForm.Toggle | src/components/clients/AddClientForm.tsx:192-206 | membership flips, other elements keep theirs, removal is an order-preserving subsequence, adding appends at the end |
| AddClientForm.ToggleTwice | src/components/clients/AddClientForm.tsx:192-206 | toggling an absent element twice restores the list |
| AddClientForm.ToggleDistinct | src/components/clients/AddClientForm.tsx:192-206 | toggling never creates duplicates |
| Tiers.DefaultTiersSpec | src/actions/tiers.ts:31-58 | three tiers owned by the trainer: Bronze 1500/4, Silver 2500/2, Gold 3500/1; Bronze is the only default |
| Tiers.SeedResult | src/actions/tiers.ts:5-62 | auth errors first; existing tiers give success with no insert; otherwise the store error, or success |
| Tiers.SeedRows | src/actions/tiers.ts:19-58 | the table grows by the three tiers exactly when they are created |
| Tiers.SeedIdempotent | src/actions/tiers.ts:19-28 | after a successful seed, a second call says the tiers exist and changes nothing |
| Tiers.TierTable.CreateDefaultTiers | src/actions/tiers.ts:5-62 | the method's answer and new table are those of the seeding functions |
| Tiers.GetTiers | src/actions/tiers.ts:64-86 | auth errors first, then the store error verbatim |
| Tiers.GetTiersSpec | src/actions/tiers.ts:78-82 | exactly the trainer's tiers, cheapest first |
| Tiers.SeededListing | src/actions/tiers.ts:31-82 | a freshly seeded trainer lists Bronze, Silver, Gold in that order |
| ClientsPage.FilterClientsIsOneFilter | src/app/clients/page.tsx:42-62 | the tab filter then the search filter is a single filter by both |
| ClientsPage.FilterClientsSpec | src/app/clients/page.tsx:42-62 | an order-preserving subsequence; a client is kept iff it is under the tab and (the query is empty or its lowercased name contains the lowercased query); All with no query keeps everything |
| ClientsPage.FilterClientsIdempotent | src/app/clients/page.tsx:42-62 | re-filtering with the same tab and query changes nothing |
| ClientsPage.SearchIgnoresQueryCase | src/app/clients/page.tsx:55-59 | searching the lowercase query gives the same list |
| ClientsPage.PatternTabsPartition | src/app/clients/page.tsx:46-52 | the three pattern tabs split the All tab into disjoint parts |
| BottomNav.IsActiveSpec | src/components/layout/BottomNav.tsx:11-16 | '/' is active only on '/'; another item is active iff the pathname is its path followed by any text |
| BottomNav.RawPrefix | src/components/layout/BottomNav.tsx:15 | an example of the raw-prefix rule `IsActiveSpec` states: '/clientsX' counts as under '/clients' |
| BottomNav.AddPageNotHighlighted | src/components/layout/BottomNav.tsx:59-65 | an example of `IsActiveSpec`'s rule with the `/add` exclusion: on '/clients/add' the Clients item is active but not highlighted |
| BottomNav.ClientPageHighlighted | src/components/layout/BottomNav.tsx:59-65 | on `/clients/<id>`, for an id without '/', the Clients item is highlighted iff the id does not start with `add` |
| BottomNav.AddPrefixedIdNotHighlighted | src/components/layout/BottomNav.tsx:59-65 | the client page of id `add3f0c2` is under '/clients' but the Clients item is not highlighted |
| BottomNav.IntendedClientPageHighlighted | src/components/layout/BottomNav.tsx:59-65 | with the exclusion limited to the add page, `/clients/<id>` is highlighted iff the id is not `add`, '/clients' is, and '/clients/add' is not |
| BottomNav.OneActiveItem | src/components/layout/BottomNav.tsx:41-107 | at most one of Home, Clients and More is active |

## Left out

- Store access itself is left out: Supabase clients, `auth.getUser`, and the
  `users` lookup, modelled by `Auth`. `revalidatePath`, the router and every
  piece of JSX are left out too.
- The wall clock and the locale are inputs. `new Date()`,
  `toISOString().split('T')[0]` and `toLocaleDateString(…, {weekday:
  'short'})` all become parameters. The difference between the UTC date
  and the local weekday is not modelled.
- `localeCompare` and the store's text ordering are modelled as code-point
  order.
- `toLowerCase` is modelled as ASCII lowercasing.
- Dates are day numbers, not ISO strings. Distinct dates are distinct
  strings, so equality is kept.
- A `.maybeSingle()` or `.single()` that matches several rows fails in the
  source. Its error is ignored, so the model treats such a probe as "no row".
  `Clients.CreateResult` rejects a duplicate only when exactly one such row
  exists, as the source does.
- `getUpcomingSchedule` default argument: `days = 7` is left to the caller.
- Attendance.GetUpcomingSchedule: `days` is a `real`, which covers
  negative and fractional numbers; `NaN` and the infinities, which a
  JavaScript `number` also admits, are not modelled (`Infinity` never ends
  the loop).
- `getClients` default argument: `archived = false`
  (src/actions/clients.ts:70) is left to the caller, who passes the flag.
- The `tier:tiers(*)` join in `getClients`' select
  (src/actions/clients.ts:86-89) is not modelled. Client rows carry the
  tier id only, not the joined tier row.
- Attendance.GetClientAttendance: `limit` is an `Option<nat>`. The source's
  `limit?: number` also admits negative or fractional values, which
  `if (limit)` lets through to the store's `.limit`. Those inputs and the
  store's handling of them are not modelled.
- Concurrent calls and the races between a probe and a write are not
  modelled.
- Workout selection is left out: `WorkoutSelectionModal` and the workout id
  the modal passes. `markAttendance` drops that id.
- Reschedule only shows a notice. The modal's loading flag and its error
  state beyond the message are UI only.
- In-place sorts and the grouping `reduce` are modelled on values.
  `Array.prototype.sort` and `.order` become `SortBy` on a sequence, so
  aliasing of the sorted array is not captured.
- The add-client form's loading of tiers and of the existing clients
  (`loadTiers` calls `getTiers`, then `createDefaultTiers` when the list is
  empty) is not modelled. The two actions it calls are.
- `AttendanceCalendar` receives `attendanceDays` with a status string.
  `StatusColor` and `StatusIcon` work on that string. Other calendar markup
  is left out.
- The row shapes follow `src/types/supabase.ts`. Fields the core never
  reads are left out.
- Not a gap, but worth knowing: the action's duplicate probe sees archived
  clients too. The form only checks the active clients, so a number held by
  an archived client passes the form and is then rejected by the action.
  Both checks are modelled as written.

## Findings

| source | as written | input that shows it | evidently intended | confidence | as-written member | corrected member |
|---|---|---|---|---|---|---|
| src/components/layout/BottomNav.tsx:59-65 | the Clients item is dark on any path that contains `/add`, which includes a client page whose id starts with `add` | the client page `/clients/add3f0c2` (client ids are strings, src/types/supabase.ts:96; about one hex id in 4096 starts with `add`) | dark only on the add page `/clients/add`, which has its own item | medium, not executed | BottomNav.AddPrefixedIdNotHighlighted | BottomNav.IntendedClientPageHighlighted |
