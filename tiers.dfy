/**
 * The tier server actions over the `tiers` table: `createDefaultTiers`,
 * which seeds Bronze, Silver and Gold for a trainer who has no tier yet,
 * and the listing `getTiers`.
 */
module Tiers {
  import opened Basics
  import opened Records
  import opened Seqs

  /** A successful `createDefaultTiers`: the trainer already had tiers, or the three were inserted. */
  datatype SeedOutcome = AlreadyExist | Created

  function OwnedTier(trainer: Id): TierRow -> bool {
    (t: TierRow) => t.trainerId == trainer
  }

  /** The trainer has at least one tier (the `.limit(1)` probe finds a row). */
  predicate HasTiers(rows: seq<TierRow>, trainer: Id) {
    exists t :: t in rows && t.trainerId == trainer
  }

  /** The three inserted rows, in insert order, with ids from `nextId`. */
  function DefaultTiers(trainer: Id, nextId: Id): seq<TierRow> {
    [ TierRow(nextId, trainer, "Bronze", "#CD7F32", 1500, 4, true),
      TierRow(nextId + 1, trainer, "Silver", "#C0C0C0", 2500, 2, false),
      TierRow(nextId + 2, trainer, "Gold", "#FFD700", 3500, 1, false) ]
  }

  /**
   * The seeded tiers are three, owned by the trainer, in increasing price
   * and decreasing capacity, and Bronze is the one and only default.
   */
  lemma DefaultTiersSpec(trainer: Id, nextId: Id)
    ensures var d := DefaultTiers(trainer, nextId);
      && |d| == 3
      && (forall t :: t in d ==> t.trainerId == trainer)
      && d[0].name == "Bronze" && d[0].amount == 1500 && d[0].maxConcurrentClients == 4
      && d[1].name == "Silver" && d[1].amount == 2500 && d[1].maxConcurrentClients == 2
      && d[2].name == "Gold" && d[2].amount == 3500 && d[2].maxConcurrentClients == 1
      && (forall i, j :: 0 <= i < j < |d| ==> d[i].amount < d[j].amount && d[i].maxConcurrentClients > d[j].maxConcurrentClients)
      && (forall t :: t in d ==> (t.isDefault <==> t.name == "Bronze"))
      && Count(d, (t: TierRow) => t.isDefault) == 1
  {
    var d := DefaultTiers(trainer, nextId);
    assert d[1..][1..][1..] == [];
  }

  /**
   * What `createDefaultTiers` answers. `readFailed` stands for a failed
   * existence probe, whose error the action ignores, so it goes on to
   * insert; `fault` is the store's answer to the insert.
   */
  function SeedResult(rows: seq<TierRow>, auth: Auth, readFailed: bool, fault: Option<string>): (r: Result<SeedOutcome>)
    ensures auth.NoUser? ==> r == Err(NotAuthenticated)
    ensures auth.NoTrainer? ==> r == Err(TrainerNotFound)
    ensures auth.Trainer? && !readFailed && HasTiers(rows, auth.id) ==> r == Ok(AlreadyExist)
    ensures r == Ok(Created) <==> auth.Trainer? && (readFailed || !HasTiers(rows, auth.id)) && fault.None?
  {
    match ResolveTrainer(auth)
    case Err(m) => Err(m)
    case Ok(trainer) =>
      if !readFailed && HasTiers(rows, trainer) then Ok(AlreadyExist)
      else if fault.Some? then Err(fault.value)
      else Ok(Created)
  }

  /** The table after `createDefaultTiers`: the three rows appended exactly when it answers `Created`. */
  function SeedRows(rows: seq<TierRow>, nextId: Id, auth: Auth, readFailed: bool, fault: Option<string>): (after: seq<TierRow>)
    ensures SeedResult(rows, auth, readFailed, fault) != Ok(Created) ==> after == rows
    ensures SeedResult(rows, auth, readFailed, fault) == Ok(Created) ==> after == rows + DefaultTiers(auth.id, nextId)
  {
    if SeedResult(rows, auth, readFailed, fault) == Ok(Created) then rows + DefaultTiers(auth.id, nextId) else rows
  }

  /**
   * Seeding is idempotent: once a call has succeeded, a second call (whose
   * probe works) answers that the tiers exist and leaves the table alone.
   */
  lemma SeedIdempotent(rows: seq<TierRow>, nextId: Id, auth: Auth, readFailed: bool, nextId2: Id, fault2: Option<string>)
    requires SeedResult(rows, auth, readFailed, None).Ok?
    ensures var once := SeedRows(rows, nextId, auth, readFailed, None);
      && SeedResult(once, auth, false, fault2) == Ok(AlreadyExist)
      && SeedRows(once, nextId2, auth, false, fault2) == once
  {
    var once := SeedRows(rows, nextId, auth, readFailed, None);
    if SeedResult(rows, auth, readFailed, None) == Ok(Created) {
      assert once[|rows|] in once;
    }
    assert HasTiers(once, auth.id);
  }

  /** `.order('amount')`: ascending price. */
  predicate ByAmount(a: TierRow, b: TierRow) {
    a.amount <= b.amount
  }

  lemma ByAmountPreorder()
    ensures TotalPreorder(ByAmount)
  {
  }

  /** `getTiers`; `fault` is the store's answer to the read. */
  function GetTiers(auth: Auth, rows: seq<TierRow>, fault: Option<string>): (r: Result<seq<TierRow>>)
    ensures auth.NoUser? ==> r == Err(NotAuthenticated)
    ensures auth.NoTrainer? ==> r == Err(TrainerNotFound)
    ensures auth.Trainer? ==> (r.Err? <==> fault.Some?) && (r.Err? ==> r.msg == fault.value)
  {
    match ResolveTrainer(auth)
    case Err(m) => Err(m)
    case Ok(trainer) =>
      if fault.Some? then Err(fault.value)
      else Ok(SortBy(Filter(rows, OwnedTier(trainer)), ByAmount))
  }

  /** The listing holds the trainer's tiers, each as often as the table does, cheapest first. */
  lemma GetTiersSpec(auth: Auth, rows: seq<TierRow>)
    requires auth.Trainer?
    ensures var s := GetTiers(auth, rows, None).value;
      && multiset(s) == multiset(Filter(rows, OwnedTier(auth.id)))
      && (forall t :: t in s <==> t in rows && t.trainerId == auth.id)
      && (forall i, j :: 0 <= i < j < |s| ==> s[i].amount <= s[j].amount)
  {
    var f := Filter(rows, OwnedTier(auth.id));
    var s := SortBy(f, ByAmount);
    ByAmountPreorder();
    SortBySorted(f, ByAmount);
    forall t ensures t in s <==> t in f {
      assert t in s <==> t in multiset(s);
      assert t in f <==> t in multiset(f);
    }
  }

  /** A trainer seeded from nothing lists exactly Bronze, Silver, Gold, in that order. */
  lemma SeededListing(rows: seq<TierRow>, nextId: Id, auth: Auth, readFailed: bool)
    requires auth.Trainer? && !HasTiers(rows, auth.id)
    ensures GetTiers(auth, SeedRows(rows, nextId, auth, readFailed, None), None).value == DefaultTiers(auth.id, nextId)
  {
    OnlySeededOwned(rows, auth.id, nextId);
    DefaultsSorted(auth.id, nextId);
  }

  /** With no earlier tier of the trainer, the trainer's rows are exactly the seeded ones. */
  lemma OnlySeededOwned(rows: seq<TierRow>, trainer: Id, nextId: Id)
    requires !HasTiers(rows, trainer)
    ensures Filter(rows + DefaultTiers(trainer, nextId), OwnedTier(trainer)) == DefaultTiers(trainer, nextId)
  {
    var d := DefaultTiers(trainer, nextId);
    var p := OwnedTier(trainer);
    CountZero(rows, p);
    FilterConcat(rows, d, p);
    FilterAll(d, p);
  }

  /** The seeded rows are already in price order, so the sort keeps them as inserted. */
  lemma DefaultsSorted(trainer: Id, nextId: Id)
    ensures SortBy(DefaultTiers(trainer, nextId), ByAmount) == DefaultTiers(trainer, nextId)
  {
    var d := DefaultTiers(trainer, nextId);
    assert d[1..] == [d[1], d[2]] && d[1..][1..] == [d[2]];
    assert SortBy([d[2]], ByAmount) == [d[2]];
    assert SortBy(d[1..], ByAmount) == Insert(d[1], [d[2]], ByAmount) == [d[1], d[2]];
  }

  /** The `tiers` table. `nextId` stands for the store's id generator. */
  class TierTable {
    var rows: seq<TierRow>
    var nextId: Id

    ghost predicate Valid()
      reads this
    {
      forall t :: t in rows ==> t.id < nextId
    }

    constructor ()
      ensures Valid() && rows == []
    {
      rows := [];
      nextId := 0;
    }

    /** `createDefaultTiers`: probe the trainer's tiers, then insert the three defaults in one write. */
    method CreateDefaultTiers(auth: Auth, readFailed: bool, fault: Option<string>) returns (r: Result<SeedOutcome>)
      requires Valid()
      modifies this
      ensures Valid()
      ensures r == SeedResult(old(rows), auth, readFailed, fault)
      ensures rows == SeedRows(old(rows), old(nextId), auth, readFailed, fault)
      ensures nextId == if r == Ok(Created) then old(nextId) + 3 else old(nextId)
    {
      if !auth.Trainer? {
        return Err(if auth.NoUser? then NotAuthenticated else TrainerNotFound);
      }
      var trainer := auth.id;
      var existing := if readFailed then [] else Filter(rows, OwnedTier(trainer));
      CountZero(rows, OwnedTier(trainer));
      if existing != [] {
        assert existing[0] in rows;
        return Ok(AlreadyExist);
      }
      if fault.Some? {
        return Err(fault.value);
      }
      rows := rows + DefaultTiers(trainer, nextId);
      nextId := nextId + 3;
      r := Ok(Created);
    }
  }
}
