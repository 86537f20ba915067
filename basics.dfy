/**
 * Shared vocabulary of the trainer app: optional values, the result-object
 * convention of the server actions, weekday codes, attendance statuses,
 * the resolved caller identity, and the few string tests the source uses
 * (`startsWith`, `includes`, `toLowerCase`).
 */
module Basics {

  datatype Option<+T> = None | Some(value: T)

  /** `{ data }` / `{ success: true }` versus `{ error: message }`. */
  datatype Result<+T> = Ok(value: T) | Err(msg: string)

  /** Row identifiers generated by the store. */
  type Id = nat

  /** A calendar date, as a day number; the ISO `YYYY-MM-DD` text is a one-to-one rendering of it. */
  type Date = int

  /** The weekday codes `sun` .. `sat`, in the order of `Date.getDay()`. */
  datatype Weekday = Sun | Mon | Tue | Wed | Thu | Fri | Sat

  function DayIndex(d: Weekday): (i: nat)
    ensures i < 7
  {
    match d
    case Sun => 0
    case Mon => 1
    case Tue => 2
    case Wed => 3
    case Thu => 4
    case Fri => 5
    case Sat => 6
  }

  function DayOfIndex(i: nat): (d: Weekday)
    requires i < 7
    ensures DayIndex(d) == i
  {
    if i == 0 then Sun
    else if i == 1 then Mon
    else if i == 2 then Tue
    else if i == 3 then Wed
    else if i == 4 then Thu
    else if i == 5 then Fri
    else Sat
  }

  /** The weekday `n` days after `d`. */
  function Advance(d: Weekday, n: nat): (e: Weekday)
    ensures DayIndex(e) == (DayIndex(d) + n) % 7
  {
    DayOfIndex((DayIndex(d) + n) % 7)
  }

  /** The attendance statuses of the `attendance` table. */
  datatype Status = Scheduled | Attending | Attended | Missed | Rescheduled

  /**
   * Who is calling a server action: nobody signed in, a signed-in user with
   * no row in `users`, or the trainer with that row's id.
   */
  datatype Auth = NoUser | NoTrainer | Trainer(id: Id)

  const NotAuthenticated := "Not authenticated"
  const TrainerNotFound := "Trainer not found"

  /** The two guard clauses that open every authenticated server action. */
  function ResolveTrainer(auth: Auth): (r: Result<Id>)
    ensures r.Ok? <==> auth.Trainer?
    ensures r.Ok? ==> r.value == auth.id
    ensures auth.NoUser? ==> r == Err(NotAuthenticated)
    ensures auth.NoTrainer? ==> r == Err(TrainerNotFound)
  {
    match auth
    case NoUser => Err(NotAuthenticated)
    case NoTrainer => Err(TrainerNotFound)
    case Trainer(id) => Ok(id)
  }

  /** `s || null` for an optional string: absent and empty both become null. */
  function NullIfEmpty(s: Option<string>): (r: Option<string>)
    ensures r.Some? <==> s.Some? && s.value != ""
    ensures r.Some? ==> r == s
  {
    if s.Some? && s.value != "" then s else None
  }

  /** `s.startsWith(p)`. */
  predicate StartsWith(s: string, p: string) {
    |p| <= |s| && s[..|p|] == p
  }

  /** `s.includes(p)`: `p` occurs somewhere in `s`. */
  predicate Includes(s: string, p: string)
    decreases |s|
  {
    StartsWith(s, p) || (s != [] && Includes(s[1..], p))
  }

  /** `p` occurs in `s` starting at index `i`. */
  predicate OccursAt(s: string, p: string, i: nat) {
    i + |p| <= |s| && s[i..i + |p|] == p
  }

  /** The substring characterisation of `Includes`. */
  lemma {:induction false} IncludesAt(s: string, p: string)
    ensures Includes(s, p) <==> exists i: nat :: OccursAt(s, p, i)
    decreases |s|
  {
    if s != [] {
      IncludesAt(s[1..], p);
      if StartsWith(s, p) {
        assert OccursAt(s, p, 0);
      }
      if Includes(s[1..], p) {
        var i: nat :| OccursAt(s[1..], p, i);
        assert OccursAt(s, p, i + 1) by {
          assert s[i + 1..i + 1 + |p|] == s[1..][i..i + |p|];
        }
      }
      if exists i: nat :: OccursAt(s, p, i) {
        var i: nat :| OccursAt(s, p, i);
        if i > 0 {
          assert OccursAt(s[1..], p, i - 1) by {
            assert s[1..][i - 1..i - 1 + |p|] == s[i..i + |p|];
          }
        } else {
          assert StartsWith(s, p);
        }
      }
    } else {
      if Includes(s, p) {
        assert OccursAt(s, p, 0);
      }
      if exists i: nat :: OccursAt(s, p, i) {
        var i: nat :| OccursAt(s, p, i);
        assert i == 0 && p == [];
        assert StartsWith(s, p);
      }
    }
  }

  /** `toLowerCase` on one character, for the ASCII letters. */
  function LowerChar(c: char): (l: char)
    ensures 'A' <= c <= 'Z' ==> 'a' <= l <= 'z'
    ensures !('A' <= c <= 'Z') ==> l == c
  {
    if 'A' <= c <= 'Z' then (c as int + 32) as char else c
  }

  /** `toLowerCase`. */
  function Lower(s: string): (r: string)
    ensures |r| == |s|
    ensures forall i :: 0 <= i < |s| ==> r[i] == LowerChar(s[i])
  {
    if s == [] then [] else [LowerChar(s[0])] + Lower(s[1..])
  }

  lemma {:induction false} LowerIdempotent(s: string)
    ensures Lower(Lower(s)) == Lower(s)
  {
    var l := Lower(s);
    assert forall i :: 0 <= i < |s| ==> Lower(l)[i] == l[i];
  }

  /** The characters `\d` matches. */
  predicate IsDigit(c: char) {
    '0' <= c <= '9'
  }
}
