/**
 * The add-client form: the two-step intake (phone, then details), its phone
 * formatting and validation for 7-digit Maldives numbers, the duplicate
 * check against the trainer's active clients, the required-field checks,
 * the `session_times` map it builds from the chosen pattern, and the
 * toggles behind the program and day chips.
 */
module AddClientForm {
  import opened Basics
  import opened Records
  import opened Seqs
  import opened Schedule
  import opened Clients

  // ===== phone step =====

  /** `value.replace(/\D/g, '')`. */
  function DigitsOnly(s: string): (r: string)
    ensures forall i :: 0 <= i < |r| ==> IsDigit(r[i])
    ensures |r| <= |s|
  {
    Filter(s, IsDigit)
  }

  /** `formatPhone`: the digits of the input, cut to the first seven. */
  function FormatPhone(v: string): (r: string)
    ensures forall i :: 0 <= i < |r| ==> IsDigit(r[i])
    ensures |r| <= 7
    ensures |DigitsOnly(v)| <= 7 ==> r == DigitsOnly(v)
    ensures |DigitsOnly(v)| > 7 ==> |r| == 7 && r == DigitsOnly(v)[..7]
  {
    var d := DigitsOnly(v);
    if |d| <= 7 then d else d[..7]
  }

  /** Digits pass through `DigitsOnly` unchanged. */
  lemma DigitsOnlyOfDigits(s: string)
    requires forall i :: 0 <= i < |s| ==> IsDigit(s[i])
    ensures DigitsOnly(s) == s
  {
    FilterAll(s, IsDigit);
  }

  /** Formatting a formatted number changes nothing, as the input's change handler relies on. */
  lemma FormatPhoneIdempotent(v: string)
    ensures FormatPhone(FormatPhone(v)) == FormatPhone(v)
  {
    DigitsOnlyOfDigits(FormatPhone(v));
  }

  /** The Maldives mobile prefixes. */
  predicate MobilePrefix(c: char) {
    c == '7' || c == '9' || c == '3'
  }

  /** `validatePhone`. */
  predicate ValidatePhone(p: string) {
    var d := DigitsOnly(p);
    |d| == 7 && MobilePrefix(d[0])
  }

  /**
   * A number is valid exactly when the text holds seven digit characters
   * and the first of them is a mobile prefix, whatever else it holds; a
   * valid number formats to its digits, and on a formatted number validity
   * is a property of the text itself.
   */
  lemma ValidatePhoneSpec(p: string)
    ensures ValidatePhone(p) <==>
      Count(p, IsDigit) == 7 && FirstIndex(p, IsDigit) < |p| && MobilePrefix(p[FirstIndex(p, IsDigit)])
    ensures ValidatePhone(p) ==> FormatPhone(p) == DigitsOnly(p) && |FormatPhone(p)| == 7
    ensures ValidatePhone(FormatPhone(p)) <==> |FormatPhone(p)| == 7 && MobilePrefix(FormatPhone(p)[0])
  {
    if Filter(p, IsDigit) != [] {
      FilterHead(p, IsDigit);
    } else {
      CountZero(p, IsDigit);
    }
    DigitsOnlyOfDigits(FormatPhone(p));
  }

  /** The country code the form puts in front of the local number. */
  const CountryCode := "+960"

  /** `checkPhoneExists`: some loaded client has the full number. */
  predicate PhoneExists(existing: seq<ClientRow>, p: string) {
    exists c :: c in existing && c.phone == CountryCode + p
  }

  const PhoneRequired := "Phone number is required"
  const PhoneInvalid := "Please enter a valid 7-digit Maldives number (starting with 7, 9, or 3)"
  const PhoneTaken := "A client with this phone number already exists"

  /** Where `handlePhoneSubmit` leaves the form: an error on the phone step, or the details step with the formatted number. */
  datatype PhoneStep = PhoneError(message: string) | ToDetails(phone: string)

  function HandlePhoneSubmit(phone: string, existing: seq<ClientRow>): PhoneStep {
    var formatted := FormatPhone(phone);
    if formatted == "" then PhoneError(PhoneRequired)
    else if !ValidatePhone(formatted) then PhoneError(PhoneInvalid)
    else if PhoneExists(existing, formatted) then PhoneError(PhoneTaken)
    else ToDetails(formatted)
  }

  /**
   * The phone step checks presence, then shape, then duplicates, and
   * stops at the first failure; it advances only with a formatted, valid
   * seven-digit number that no loaded client has.
   */
  lemma PhoneSubmitSpec(phone: string, existing: seq<ClientRow>)
    ensures var f := FormatPhone(phone); var s := HandlePhoneSubmit(phone, existing);
      && (f == "" <==> s == PhoneError(PhoneRequired))
      && (f != "" && !(|f| == 7 && MobilePrefix(f[0])) <==> s == PhoneError(PhoneInvalid))
      && (s == PhoneError(PhoneTaken) <==> |f| == 7 && MobilePrefix(f[0]) && PhoneExists(existing, f))
      && (s.ToDetails? <==> |f| == 7 && MobilePrefix(f[0]) && !PhoneExists(existing, f))
      && (s.ToDetails? ==>
            && s.phone == f && ValidatePhone(s.phone) && FormatPhone(s.phone) == s.phone
            && forall c :: c in existing ==> c.phone != CountryCode + s.phone)
  {
    ValidatePhoneSpec(phone);
    FormatPhoneIdempotent(phone);
  }

  // ===== details step =====

  /** The details step's state. `tierId` is `None` while no tier is chosen. */
  datatype Form = Form(
    name: string,
    phone: string,
    tierId: Option<Id>,
    programs: seq<string>,
    scheduleSet: ScheduleSet,
    customDays: seq<Weekday>,
    sameTimeAllDays: bool,
    defaultTime: string,
    dayTimes: map<Weekday, string>)

  /** The time the form submits for a day: the shared time, or the day's own time when one was entered. */
  function DayTime(f: Form, d: Weekday): (t: string)
    ensures f.sameTimeAllDays ==> t == f.defaultTime
    ensures !f.sameTimeAllDays && d in f.dayTimes && f.dayTimes[d] != "" ==> t == f.dayTimes[d]
    ensures !f.sameTimeAllDays && !(d in f.dayTimes && f.dayTimes[d] != "") ==> t == f.defaultTime
  {
    if f.sameTimeAllDays then f.defaultTime
    else if d in f.dayTimes && f.dayTimes[d] != "" then f.dayTimes[d]
    else f.defaultTime
  }

  /** The days the chosen pattern trains on. */
  function ChosenDays(f: Form): set<Weekday> {
    match f.scheduleSet
    case SundaySet => {Sun, Tue, Thu}
    case SaturdaySet => {Sat, Mon, Wed}
    case CustomSet => set d | d in f.customDays
  }

  /**
   * The `sessionTimes` record: the three pattern days for the fixed
   * patterns, and one entry per chosen day, filled by the `forEach`, for a
   * custom schedule.
   */
  method BuildSessionTimes(f: Form) returns (times: map<Weekday, string>)
    ensures times.Keys == ChosenDays(f)
    ensures forall d :: d in times ==> times[d] == DayTime(f, d)
  {
    match f.scheduleSet {
      case SundaySet =>
        times := map[Sun := DayTime(f, Sun), Tue := DayTime(f, Tue), Thu := DayTime(f, Thu)];
      case SaturdaySet =>
        times := map[Sat := DayTime(f, Sat), Mon := DayTime(f, Mon), Wed := DayTime(f, Wed)];
      case CustomSet =>
        times := map[];
        var i := 0;
        while i < |f.customDays|
          invariant 0 <= i <= |f.customDays|
          invariant times.Keys == set d | d in f.customDays[..i]
          invariant forall d :: d in times ==> times[d] == DayTime(f, d)
        {
          var day := f.customDays[i];
          times := times[day := DayTime(f, day)];
          assert f.customDays[..i + 1] == f.customDays[..i] + [day];
          i := i + 1;
        }
        assert f.customDays[..i] == f.customDays;
    }
  }

  const FieldsMissing := "Please fill in all required fields"
  const NoCustomDays := "Please select at least one day for custom schedule"

  /** What `handleSubmit` does before the create call: show an error, or send a payload. */
  datatype Submission = Rejected(message: string) | Send(payload: NewClient)

  /** `handleSubmit` up to the `createClientAction` call. */
  method HandleSubmit(f: Form) returns (s: Submission)
    ensures (f.name == "" || f.phone == "" || f.programs == []) ==> s == Rejected(FieldsMissing)
    ensures !(f.name == "" || f.phone == "" || f.programs == []) && f.scheduleSet == CustomSet && f.customDays == []
            ==> s == Rejected(NoCustomDays)
    ensures s.Send? <==> f.name != "" && f.phone != "" && f.programs != [] && !(f.scheduleSet == CustomSet && f.customDays == [])
    ensures s.Send? ==> s.payload == SubmittedClient(f)
  {
    if f.name == "" || f.phone == "" || f.programs == [] {
      return Rejected(FieldsMissing);
    }
    if f.scheduleSet == CustomSet && f.customDays == [] {
      return Rejected(NoCustomDays);
    }
    var times := BuildSessionTimes(f);
    SessionTimesUnique(f, times);
    s := Send(NewClient(f.name, CountryCode + f.phone, f.tierId, f.programs, f.scheduleSet,
      Some(if f.scheduleSet == CustomSet then f.customDays else []), times));
  }

  /** The time map the payload carries, as a value. */
  function SessionTimes(f: Form): (m: map<Weekday, string>)
    ensures m.Keys == ChosenDays(f)
    ensures forall d :: d in m ==> m[d] == DayTime(f, d)
  {
    map d | d in ChosenDays(f) :: DayTime(f, d)
  }

  /** A map is fixed by its keys and values, so every build gives the same map. */
  lemma SessionTimesUnique(f: Form, times: map<Weekday, string>)
    requires times.Keys == ChosenDays(f)
    requires forall d :: d in times ==> times[d] == DayTime(f, d)
    ensures times == SessionTimes(f)
  {
  }

  /** The payload a valid form sends: the full number, custom days only for a custom schedule. */
  function SubmittedClient(f: Form): (c: NewClient)
    ensures c.phone == CountryCode + f.phone
    ensures c.customDays.Some?
    ensures f.scheduleSet != CustomSet ==> c.customDays.value == []
    ensures f.scheduleSet == CustomSet ==> c.customDays.value == f.customDays
    ensures c.sessionTimes.Keys == ChosenDays(f)
  {
    NewClient(f.name, CountryCode + f.phone, f.tierId, f.programs, f.scheduleSet,
      Some(if f.scheduleSet == CustomSet then f.customDays else []), SessionTimes(f))
  }

  /**
   * A client created from a submitted form is due exactly on the days the
   * form showed as chosen, and on each of them the resolver finds the time
   * the form submitted (the default `09:00` only where that time was empty).
   */
  lemma SubmittedClientSchedule(f: Form, id: Id, trainer: Id, d: Weekday)
    ensures var row := NewRow(id, trainer, SubmittedClient(f));
      && (IsDue(row, d) <==> d in ChosenDays(f))
      && (d in ChosenDays(f) && DayTime(f, d) != "" ==> SessionTime(row, d) == DayTime(f, d))
      && (d in ChosenDays(f) && DayTime(f, d) == "" ==> SessionTime(row, d) == DefaultSessionTime)
  {
    var row := NewRow(id, trainer, SubmittedClient(f));
    IsDueIffPatternDay(row, d);
  }

  /**
   * The form after `createClientAction` answers. `result.error` is tested
   * for truthiness: a non-empty message is shown; success and an empty
   * message both move the app to `/clients`.
   */
  datatype AfterCreate = ShowCreateError(message: string) | GoToClients

  function AfterSubmit(r: Result<ClientRow>): (o: AfterCreate)
    ensures o.ShowCreateError? <==> r.Err? && r.msg != ""
    ensures o.ShowCreateError? ==> o.message == r.msg
    ensures r.Ok? ==> o == GoToClients
  {
    match r
    case Err(m) => if m != "" then ShowCreateError(m) else GoToClients
    case Ok(_) => GoToClients
  }

  // ===== chips =====

  /** `toggleTrainingProgram` and `toggleCustomDay`: remove every copy if present, else append. */
  function Toggle<T(==, !new)>(s: seq<T>, x: T): (r: seq<T>)
    ensures x in r <==> x !in s
    ensures forall y :: y != x ==> (y in r <==> y in s)
    ensures x in s ==> SubseqOf(r, s)
    ensures x !in s ==> r == s + [x]
  {
    if x in s then
      FilterIsSubseq(s, y => y != x);
      Filter(s, y => y != x)
    else s + [x]
  }

  /** Toggling an absent element twice puts the list back as it was. */
  lemma ToggleTwice<T(!new)>(s: seq<T>, x: T)
    requires x !in s
    ensures Toggle(Toggle(s, x), x) == s
  {
    FilterAppend(s, x, y => y != x);
    FilterAll(s, y => y != x);
  }

  /** Toggles never create duplicates, so the chip lists stay duplicate-free. */
  lemma ToggleDistinct<T(!new)>(s: seq<T>, x: T)
    requires Distinct(s)
    ensures Distinct(Toggle(s, x))
  {
    if x in s {
      FilterDistinct(s, y => y != x);
    }
  }

  lemma {:induction false} FilterDistinct<T(!new)>(s: seq<T>, p: T -> bool)
    requires Distinct(s)
    ensures Distinct(Filter(s, p))
  {
    if s != [] {
      assert Distinct(s[1..]) by {
        forall i, j | 0 <= i < j < |s[1..]| ensures s[1..][i] != s[1..][j] {
          assert s[1..][i] == s[i + 1] && s[1..][j] == s[j + 1];
        }
      }
      FilterDistinct(s[1..], p);
      if p(s[0]) {
        assert s[0] !in s[1..] by {
          forall k | 0 <= k < |s[1..]| ensures s[1..][k] != s[0] {
            assert s[1..][k] == s[k + 1];
          }
        }
        var r := Filter(s[1..], p);
        forall i, j | 0 <= i < j < |[s[0]] + r| ensures ([s[0]] + r)[i] != ([s[0]] + r)[j] {
          if i == 0 {
            assert ([s[0]] + r)[j] == r[j - 1];
            assert r[j - 1] in r;
          } else {
            assert ([s[0]] + r)[i] == r[i - 1] && ([s[0]] + r)[j] == r[j - 1];
          }
        }
      }
    }
  }
}
