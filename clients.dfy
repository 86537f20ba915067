/**
 * The client server actions over the `clients` table: the guarded insert
 * `createClientAction`, the listing `getClients`, and the by-id updates
 * `archiveClient`, `unarchiveClient` and `deleteClient`.
 */
module Clients {
  import opened Basics
  import opened Records
  import opened Seqs

  /** The argument object of `createClientAction`. */
  datatype NewClient = NewClient(
    name: string,
    phone: string,
    tierId: Option<Id>,
    programs: seq<string>,
    scheduleSet: ScheduleSet,
    customDays: Option<seq<Weekday>>,
    sessionTimes: map<Weekday, string>)

  const DuplicatePhone := "Client with this phone number already exists"

  function SamePhone(trainer: Id, phone: string): ClientRow -> bool {
    (c: ClientRow) => c.trainerId == trainer && c.phone == phone
  }

  /** No trainer has two clients with the same phone text. */
  ghost predicate PhonesUnique(rows: seq<ClientRow>) {
    forall i, j :: 0 <= i < j < |rows| && rows[i].trainerId == rows[j].trainerId ==> rows[i].phone != rows[j].phone
  }

  /** The inserted row: owned by the caller, `custom_days` defaulting to empty, not archived. */
  function NewRow(id: Id, trainer: Id, data: NewClient): ClientRow {
    ClientRow(id, trainer, data.name, data.phone, data.tierId, data.programs, data.scheduleSet,
      if data.customDays.Some? then data.customDays.value else [],
      data.sessionTimes, false, None)
  }

  /**
   * What `createClientAction` answers. The duplicate probe is a
   * `.single()`, so it sees an existing client only when exactly one row
   * of the trainer has the phone. `readFailed` stands for a failed probe,
   * whose error the action ignores, so it goes on to insert; `fault` is
   * the store's answer to the insert.
   */
  function CreateResult(rows: seq<ClientRow>, nextId: Id, auth: Auth, data: NewClient,
                        readFailed: bool, fault: Option<string>): (r: Result<ClientRow>)
    ensures auth.NoUser? ==> r == Err(NotAuthenticated)
    ensures auth.NoTrainer? ==> r == Err(TrainerNotFound)
    ensures auth.Trainer? && readFailed ==> r == (if fault.Some? then Err(fault.value) else Ok(NewRow(nextId, auth.id, data)))
  {
    match ResolveTrainer(auth)
    case Err(m) => Err(m)
    case Ok(trainer) =>
      if !readFailed && Count(rows, SamePhone(trainer, data.phone)) == 1 then Err(DuplicatePhone)
      else if fault.Some? then Err(fault.value)
      else Ok(NewRow(nextId, trainer, data))
  }

  /**
   * With phones unique per trainer and a working probe, creation fails
   * with the duplicate message exactly when the trainer already has a
   * client with that phone; a created client belongs to the caller, has the given fields, custom
   * days defaulting to empty, and is not archived.
   */
  lemma CreateResultSpec(rows: seq<ClientRow>, nextId: Id, auth: Auth, data: NewClient, readFailed: bool, fault: Option<string>)
    requires PhonesUnique(rows) && auth.Trainer?
    ensures var r := CreateResult(rows, nextId, auth, data, readFailed, fault);
      && (!readFailed && (exists c :: c in rows && c.trainerId == auth.id && c.phone == data.phone) ==> r == Err(DuplicatePhone))
      && ((readFailed || forall c :: c in rows ==> !(c.trainerId == auth.id && c.phone == data.phone)) ==>
            r == (if fault.Some? then Err(fault.value) else Ok(NewRow(nextId, auth.id, data))))
      && (r.Ok? <==> fault.None? && (readFailed || forall c :: c in rows ==> !(c.trainerId == auth.id && c.phone == data.phone)))
      && (r.Ok? ==> r.value.trainerId == auth.id && r.value.phone == data.phone && r.value.name == data.name
                    && r.value.customDays == (if data.customDays.Some? then data.customDays.value else [])
                    && !r.value.isArchived && r.value.archivedAt.None?)
  {
    var p := SamePhone(auth.id, data.phone);
    CountAtMostOne(rows, p);
    CountZero(rows, p);
    if exists c :: c in rows && c.trainerId == auth.id && c.phone == data.phone {
      var c :| c in rows && c.trainerId == auth.id && c.phone == data.phone;
      var i :| 0 <= i < |rows| && rows[i] == c;
      assert p(rows[i]);
    }
  }

  /**
   * A created client keeps phones unique per trainer exactly when the
   * trainer had no client with that phone, which a working probe ensures;
   * after a failed probe the insert can repeat a phone.
   */
  lemma CreateKeepsPhonesUnique(rows: seq<ClientRow>, nextId: Id, auth: Auth, data: NewClient, readFailed: bool, fault: Option<string>)
    requires PhonesUnique(rows)
    requires CreateResult(rows, nextId, auth, data, readFailed, fault).Ok?
    ensures PhonesUnique(rows + [CreateResult(rows, nextId, auth, data, readFailed, fault).value])
      <==> forall c :: c in rows ==> !(c.trainerId == auth.id && c.phone == data.phone)
    ensures !readFailed ==> PhonesUnique(rows + [CreateResult(rows, nextId, auth, data, readFailed, fault).value])
  {
    CreateResultSpec(rows, nextId, auth, data, readFailed, fault);
    var after := rows + [CreateResult(rows, nextId, auth, data, readFailed, fault).value];
    if forall c :: c in rows ==> !(c.trainerId == auth.id && c.phone == data.phone) {
      forall i, j | 0 <= i < j < |after| && after[i].trainerId == after[j].trainerId
        ensures after[i].phone != after[j].phone
      {
        if j == |rows| {
          assert after[i] in rows;
        }
      }
    } else {
      var c :| c in rows && c.trainerId == auth.id && c.phone == data.phone;
      var i :| 0 <= i < |rows| && rows[i] == c;
      assert after[i] == c && after[|rows|].trainerId == auth.id && after[|rows|].phone == data.phone;
    }
  }

  function ArchiveRow(c: ClientRow, id: Id, now: string): ClientRow {
    if c.id == id then c.(isArchived := true, archivedAt := Some(now)) else c
  }

  function UnarchiveRow(c: ClientRow, id: Id): ClientRow {
    if c.id == id then c.(isArchived := false, archivedAt := None) else c
  }

  /**
   * The table after `archiveClient(id)` at time `now`: the rows with that
   * id, whoever owns them, get the flag and the timestamp; every other row
   * stays as it was.
   */
  function Archived(rows: seq<ClientRow>, id: Id, now: string): (r: seq<ClientRow>)
    ensures |r| == |rows|
    ensures forall i :: 0 <= i < |rows| ==>
      if rows[i].id == id then
        r[i].isArchived && r[i].archivedAt == Some(now) &&
        r[i] == rows[i].(isArchived := true, archivedAt := Some(now))
      else r[i] == rows[i]
  {
    Map(rows, (c: ClientRow) => ArchiveRow(c, id, now))
  }

  /**
   * The table after `unarchiveClient(id)`: the rows with that id lose the
   * flag and the timestamp; every other row stays as it was.
   */
  function Unarchived(rows: seq<ClientRow>, id: Id): (r: seq<ClientRow>)
    ensures |r| == |rows|
    ensures forall i :: 0 <= i < |rows| ==>
      if rows[i].id == id then
        !r[i].isArchived && r[i].archivedAt.None? &&
        r[i] == rows[i].(isArchived := false, archivedAt := None)
      else r[i] == rows[i]
  {
    Map(rows, (c: ClientRow) => UnarchiveRow(c, id))
  }

  /** The table after `deleteClient(id)`. */
  function Deleted(rows: seq<ClientRow>, id: Id): (r: seq<ClientRow>)
    ensures SubseqOf(r, rows)
    ensures forall c :: c in r <==> c in rows && c.id != id
  {
    FilterIsSubseq(rows, (c: ClientRow) => c.id != id);
    Filter(rows, (c: ClientRow) => c.id != id)
  }

  /** Archive then unarchive is the same as unarchive alone: the pair restores the unarchived fields. */
  lemma ArchiveThenUnarchive(rows: seq<ClientRow>, id: Id, now: string)
    ensures Unarchived(Archived(rows, id, now), id) == Unarchived(rows, id)
  {
  }

  /** Unarchiving a row that was never archived changes nothing. */
  lemma UnarchiveFresh(rows: seq<ClientRow>, id: Id)
    requires forall c :: c in rows && c.id == id ==> !c.isArchived && c.archivedAt.None?
    ensures Unarchived(rows, id) == rows
  {
    var after := Unarchived(rows, id);
    forall i | 0 <= i < |rows| ensures after[i] == rows[i] {
      assert rows[i] in rows;
    }
  }

  /** Archiving keeps phones unique per trainer: it does not touch owners or phones. */
  lemma ArchiveKeepsPhonesUnique(rows: seq<ClientRow>, id: Id, now: string)
    requires PhonesUnique(rows)
    ensures PhonesUnique(Archived(rows, id, now))
  {
    var after := Archived(rows, id, now);
    forall i | 0 <= i < |rows|
      ensures after[i].trainerId == rows[i].trainerId && after[i].phone == rows[i].phone
    {
      assert after[i] == ArchiveRow(rows[i], id, now);
    }
  }

  /** Unarchiving keeps phones unique per trainer: it does not touch owners or phones. */
  lemma UnarchiveKeepsPhonesUnique(rows: seq<ClientRow>, id: Id)
    requires PhonesUnique(rows)
    ensures PhonesUnique(Unarchived(rows, id))
  {
    var after := Unarchived(rows, id);
    forall i | 0 <= i < |rows|
      ensures after[i].trainerId == rows[i].trainerId && after[i].phone == rows[i].phone
    {
      assert after[i] == UnarchiveRow(rows[i], id);
    }
  }

  /** `.order('name')`: ascending code-point order of names. */
  predicate ByName(a: ClientRow, b: ClientRow) {
    StrLe(a.name, b.name)
  }

  lemma ByNamePreorder()
    ensures TotalPreorder(ByName)
  {
    forall a: ClientRow, b: ClientRow ensures ByName(a, b) || ByName(b, a) {
      StrLeTotal(a.name, b.name);
    }
    forall a: ClientRow, b: ClientRow, c: ClientRow | ByName(a, b) && ByName(b, c) ensures ByName(a, c) {
      StrLeTransitive(a.name, b.name, c.name);
    }
  }

  function ListedFor(trainer: Id, archived: bool): ClientRow -> bool {
    (c: ClientRow) => c.trainerId == trainer && c.isArchived == archived
  }

  /** `getClients(archived)`; `fault` is the store's answer to the read. */
  function GetClients(auth: Auth, rows: seq<ClientRow>, archived: bool, fault: Option<string>): (r: Result<seq<ClientRow>>)
    ensures auth.NoUser? ==> r == Err(NotAuthenticated)
    ensures auth.NoTrainer? ==> r == Err(TrainerNotFound)
    ensures auth.Trainer? ==> (r.Err? <==> fault.Some?) && (r.Err? ==> r.msg == fault.value)
  {
    match ResolveTrainer(auth)
    case Err(m) => Err(m)
    case Ok(trainer) =>
      if fault.Some? then Err(fault.value)
      else Ok(SortBy(Filter(rows, ListedFor(trainer, archived)), ByName))
  }

  /**
   * The listing holds each of the trainer's clients with the requested
   * archived flag as often as the table does, and no other row, sorted by name.
   */
  lemma GetClientsSpec(auth: Auth, rows: seq<ClientRow>, archived: bool)
    requires auth.Trainer?
    ensures var s := GetClients(auth, rows, archived, None).value;
      && multiset(s) == multiset(Filter(rows, ListedFor(auth.id, archived)))
      && (forall c :: c in s <==> c in rows && c.trainerId == auth.id && c.isArchived == archived)
      && (forall i, j :: 0 <= i < j < |s| ==> StrLe(s[i].name, s[j].name))
  {
    var f := Filter(rows, ListedFor(auth.id, archived));
    var s := SortBy(f, ByName);
    ByNamePreorder();
    SortBySorted(f, ByName);
    forall c ensures c in s <==> c in f {
      assert c in s <==> c in multiset(s);
      assert c in f <==> c in multiset(f);
    }
  }

  /** The `clients` table. `nextId` stands for the store's id generator. */
  class ClientTable {
    var rows: seq<ClientRow>
    var nextId: Id

    /**
     * Every id is below the generator. Phone uniqueness is not part of it:
     * an insert after a failed probe can repeat a phone.
     */
    ghost predicate Valid()
      reads this
    {
      forall c :: c in rows ==> c.id < nextId
    }

    constructor ()
      ensures Valid() && rows == []
    {
      rows := [];
      nextId := 0;
    }

    /** `createClientAction`; `readFailed` is a failed duplicate probe, whose error is ignored. */
    method CreateClient(auth: Auth, data: NewClient, readFailed: bool, fault: Option<string>) returns (r: Result<ClientRow>)
      requires Valid()
      modifies this
      ensures Valid()
      ensures r == CreateResult(old(rows), old(nextId), auth, data, readFailed, fault)
      ensures PhonesUnique(old(rows)) && !readFailed ==> PhonesUnique(rows)
      ensures r.Ok? ==> rows == old(rows) + [r.value] && nextId == old(nextId) + 1
      ensures r.Err? ==> rows == old(rows) && nextId == old(nextId)
    {
      if !auth.Trainer? {
        return Err(if auth.NoUser? then NotAuthenticated else TrainerNotFound);
      }
      var trainer := auth.id;
      if !readFailed && Count(rows, SamePhone(trainer, data.phone)) == 1 {
        return Err(DuplicatePhone);
      }
      if fault.Some? {
        return Err(fault.value);
      }
      var row := NewRow(nextId, trainer, data);
      if PhonesUnique(rows) {
        CreateKeepsPhonesUnique(rows, nextId, auth, data, readFailed, fault);
      }
      rows := rows + [row];
      nextId := nextId + 1;
      r := Ok(row);
    }

    /** `archiveClient(id)`: no ownership check; `fault` is the store's answer. */
    method ArchiveClient(id: Id, now: string, fault: Option<string>) returns (r: Result<()>)
      requires Valid()
      modifies this
      ensures Valid() && nextId == old(nextId)
      ensures PhonesUnique(old(rows)) ==> PhonesUnique(rows)
      ensures r == (if fault.Some? then Err(fault.value) else Ok(()))
      ensures rows == (if fault.Some? then old(rows) else Archived(old(rows), id, now))
    {
      if fault.Some? {
        return Err(fault.value);
      }
      if PhonesUnique(rows) {
        ArchiveKeepsPhonesUnique(rows, id, now);
      }
      rows := Archived(rows, id, now);
      r := Ok(());
    }

    /** `unarchiveClient(id)`: no ownership check; `fault` is the store's answer. */
    method UnarchiveClient(id: Id, fault: Option<string>) returns (r: Result<()>)
      requires Valid()
      modifies this
      ensures Valid() && nextId == old(nextId)
      ensures PhonesUnique(old(rows)) ==> PhonesUnique(rows)
      ensures r == (if fault.Some? then Err(fault.value) else Ok(()))
      ensures rows == (if fault.Some? then old(rows) else Unarchived(old(rows), id))
    {
      if fault.Some? {
        return Err(fault.value);
      }
      if PhonesUnique(rows) {
        UnarchiveKeepsPhonesUnique(rows, id);
      }
      rows := Unarchived(rows, id);
      r := Ok(());
    }

    /** `deleteClient(id)`: no ownership check; `fault` is the store's answer. */
    method DeleteClient(id: Id, fault: Option<string>) returns (r: Result<()>)
      requires Valid()
      modifies this
      ensures Valid() && nextId == old(nextId)
      ensures PhonesUnique(old(rows)) ==> PhonesUnique(rows)
      ensures r == (if fault.Some? then Err(fault.value) else Ok(()))
      ensures rows == (if fault.Some? then old(rows) else Deleted(old(rows), id))
    {
      if fault.Some? {
        return Err(fault.value);
      }
      if PhonesUnique(rows) {
        DeleteKeepsPhonesUnique(rows, id);
      }
      rows := Deleted(rows, id);
      r := Ok(());
    }
  }

  /** Deleting keeps phones unique per trainer: it only drops rows. */
  lemma {:induction false} DeleteKeepsPhonesUnique(rows: seq<ClientRow>, id: Id)
    requires PhonesUnique(rows)
    ensures PhonesUnique(Deleted(rows, id))
  {
    if rows != [] {
      var tail := rows[1..];
      PhonesUniqueTail(rows);
      DeleteKeepsPhonesUnique(tail, id);
      var rest := Deleted(tail, id);
      assert rest == Filter(tail, (c: ClientRow) => c.id != id);
      if rows[0].id != id {
        assert Deleted(rows, id) == [rows[0]] + rest;
        PhonesUniqueCons(rows[0], rest);
      } else {
        assert Deleted(rows, id) == rest;
      }
    }
  }

  /** Dropping the first row keeps phones unique, and no later row of its trainer shares its phone. */
  lemma PhonesUniqueTail(rows: seq<ClientRow>)
    requires rows != [] && PhonesUnique(rows)
    ensures PhonesUnique(rows[1..])
    ensures forall c :: c in rows[1..] && c.trainerId == rows[0].trainerId ==> c.phone != rows[0].phone
  {
    var tail := rows[1..];
    forall i, j | 0 <= i < j < |tail| && tail[i].trainerId == tail[j].trainerId
      ensures tail[i].phone != tail[j].phone
    {
      assert tail[i] == rows[i + 1] && tail[j] == rows[j + 1];
    }
    forall c | c in tail && c.trainerId == rows[0].trainerId
      ensures c.phone != rows[0].phone
    {
      var k :| 0 <= k < |tail| && tail[k] == c;
      assert rows[k + 1] == c;
    }
  }

  /** A row whose phone no row of its trainer in `rest` shares can be put in front of `rest`. */
  lemma PhonesUniqueCons(r: ClientRow, rest: seq<ClientRow>)
    requires PhonesUnique(rest)
    requires forall c :: c in rest && c.trainerId == r.trainerId ==> c.phone != r.phone
    ensures PhonesUnique([r] + rest)
  {
    var after := [r] + rest;
    forall i, j | 0 <= i < j < |after| && after[i].trainerId == after[j].trainerId
      ensures after[i].phone != after[j].phone
    {
      assert after[j] == rest[j - 1];
      if i == 0 {
        assert rest[j - 1] in rest;
      } else {
        assert after[i] == rest[i - 1];
      }
    }
  }
}
