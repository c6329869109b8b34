/** The persisted state the registration pipeline reads and writes: the
    competitions, users, registrations and mailbox tables, the lookups the
    services perform on them, and the integrity conditions the store keeps. */
module Schema {
  import opened Results

  type Id = string

  /** Milliseconds since the epoch. */
  type Timestamp = int

  /** Registration ids are drawn from a counter the store owns. */
  type RegistrationId = nat

  /** One day, and the 30-day retention threshold, in milliseconds. */
  const DayMs: int := 24 * 60 * 60 * 1000
  const RetentionMs: int := 30 * DayMs

  /** Read-only for the pipeline: created and edited elsewhere. */
  datatype Competition = Competition(
    id: Id,
    title: string,
    capacity: int,
    regDeadline: Timestamp,
    startDate: Option<Timestamp>)

  datatype User = User(email: string, name: string)

  datatype Status = Pending | Confirmed

  datatype Registration = Registration(
    id: RegistrationId,
    competitionId: Id,
    userId: Id,
    status: Status,
    idempotencyKey: Option<string>,
    createdAt: Timestamp)

  /** The structured tag of a mailbox entry: which worker wrote it and the
      identifiers it correlates with. */
  datatype Metadata =
    | ConfirmationMeta(registrationId: RegistrationId, competitionId: Id)
    | ReminderMeta(competitionId: Id, userId: Id)

  datatype MailboxEntry = MailboxEntry(to: string, subject: string, body: string, metadata: Metadata)

  /** Tables are sequences in storage order; users are keyed by id. */
  datatype Db = Db(
    competitions: seq<Competition>,
    users: map<Id, User>,
    registrations: seq<Registration>,
    mailbox: seq<MailboxEntry>,
    nextId: RegistrationId)

  // ---------------------------------------------------------------------------
  // Lookups (each returns the first matching row)
  // ---------------------------------------------------------------------------

  function FindCompetition(cs: seq<Competition>, id: Id): (r: Option<Competition>)
    ensures r.Some? ==> r.value in cs && r.value.id == id
    ensures r.None? <==> forall c :: c in cs ==> c.id != id
  {
    if cs == [] then None
    else if cs[0].id == id then Some(cs[0])
    else FindCompetition(cs[1..], id)
  }

  function FindRegistration(regs: seq<Registration>, id: RegistrationId): (r: Option<Registration>)
    ensures r.Some? ==> r.value in regs && r.value.id == id
    ensures r.None? <==> forall x :: x in regs ==> x.id != id
  {
    if regs == [] then None
    else if regs[0].id == id then Some(regs[0])
    else FindRegistration(regs[1..], id)
  }

  function FindByKey(regs: seq<Registration>, key: string): (r: Option<Registration>)
    ensures r.Some? ==> r.value in regs && r.value.idempotencyKey == Some(key)
    ensures r.None? <==> forall x :: x in regs ==> x.idempotencyKey != Some(key)
  {
    if regs == [] then None
    else if regs[0].idempotencyKey == Some(key) then Some(regs[0])
    else FindByKey(regs[1..], key)
  }

  function FindByPair(regs: seq<Registration>, competitionId: Id, userId: Id): (r: Option<Registration>)
    ensures r.Some? ==> r.value in regs && r.value.competitionId == competitionId && r.value.userId == userId
    ensures r.None? <==> forall x :: x in regs ==> !(x.competitionId == competitionId && x.userId == userId)
  {
    if regs == [] then None
    else if regs[0].competitionId == competitionId && regs[0].userId == userId then Some(regs[0])
    else FindByPair(regs[1..], competitionId, userId)
  }

  /** The positions of the table whose row names the competition. */
  ghost function RowsFor(regs: seq<Registration>, competitionId: Id): set<int> {
    set i | 0 <= i < |regs| && regs[i].competitionId == competitionId
  }

  /** Dropping the last row drops at most its own position. */
  lemma RowsForSplit(regs: seq<Registration>, competitionId: Id)
    requires regs != []
    ensures var m := |regs| - 1;
      |RowsFor(regs, competitionId)|
      == |RowsFor(regs[..m], competitionId)| + (if regs[m].competitionId == competitionId then 1 else 0)
  {
    var m := |regs| - 1;
    var before := RowsFor(regs[..m], competitionId);
    var last: set<int> := if regs[m].competitionId == competitionId then {m} else {};
    assert RowsFor(regs, competitionId) == before + last by {
      forall i | i in RowsFor(regs, competitionId) ensures i in before + last {
        if i < m {
          assert regs[..m][i] == regs[i];
        }
      }
      forall i | i in before ensures i in RowsFor(regs, competitionId) {
        assert regs[..m][i] == regs[i];
      }
    }
    assert before !! last;
  }

  /** The number of registrations held for a competition, whatever their
      status: the number of rows that name it. */
  function CountFor(regs: seq<Registration>, competitionId: Id): (n: nat)
    ensures n <= |regs|
    ensures n == |RowsFor(regs, competitionId)|
  {
    if regs == [] then 0
    else
      RowsForSplit(regs, competitionId);
      CountFor(regs[..|regs| - 1], competitionId)
      + (if regs[|regs| - 1].competitionId == competitionId then 1 else 0)
  }

  lemma CountForAppend(regs: seq<Registration>, row: Registration, competitionId: Id)
    ensures CountFor(regs + [row], competitionId)
         == CountFor(regs, competitionId) + (if row.competitionId == competitionId then 1 else 0)
  {
  }

  // ---------------------------------------------------------------------------
  // Integrity conditions
  // ---------------------------------------------------------------------------

  /** What the competition management side guarantees: positive capacities
      (the creation form demands at least 1) and one row per id. */
  ghost predicate CompetitionsWellFormed(cs: seq<Competition>) {
    && (forall c :: c in cs ==> c.capacity >= 1)
    && (forall i, j :: 0 <= i < j < |cs| ==> cs[i].id != cs[j].id)
  }

  /** The central safety property: no competition holds more registrations
      than its capacity. */
  ghost predicate WithinCapacity(db: Db) {
    forall c :: c in db.competitions ==> CountFor(db.registrations, c.id) <= c.capacity
  }

  ghost predicate IdsUnique(regs: seq<Registration>) {
    forall i, j :: 0 <= i < j < |regs| ==> regs[i].id != regs[j].id
  }

  /** At most one registration per (competition, user) pair. */
  ghost predicate PairsUnique(regs: seq<Registration>) {
    forall i, j :: 0 <= i < j < |regs| ==>
      regs[i].competitionId != regs[j].competitionId || regs[i].userId != regs[j].userId
  }

  /** A present idempotency key belongs to at most one registration. */
  ghost predicate KeysUnique(regs: seq<Registration>) {
    forall i, j :: 0 <= i < j < |regs| && regs[i].idempotencyKey.Some? ==>
      regs[i].idempotencyKey != regs[j].idempotencyKey
  }

  /** Every registration points at an existing competition and user (the
      store's foreign keys). */
  ghost predicate ReferencesIntact(db: Db) {
    forall x :: x in db.registrations ==>
      FindCompetition(db.competitions, x.competitionId).Some? && x.userId in db.users
  }

  /** Every stored id was drawn from the counter. */
  ghost predicate IdsBelowCounter(db: Db) {
    forall x :: x in db.registrations ==> x.id < db.nextId
  }

  ghost predicate Valid(db: Db) {
    && CompetitionsWellFormed(db.competitions)
    && WithinCapacity(db)
    && IdsUnique(db.registrations)
    && PairsUnique(db.registrations)
    && KeysUnique(db.registrations)
    && ReferencesIntact(db)
    && IdsBelowCounter(db)
  }

  /** Appending a row that clashes with no existing row keeps every
      uniqueness condition. */
  lemma AppendKeepsUniqueness(regs: seq<Registration>, row: Registration)
    requires IdsUnique(regs) && PairsUnique(regs) && KeysUnique(regs)
    requires forall x :: x in regs ==>
      && x.id != row.id
      && (x.competitionId != row.competitionId || x.userId != row.userId)
      && (x.idempotencyKey.Some? ==> x.idempotencyKey != row.idempotencyKey)
    ensures IdsUnique(regs + [row]) && PairsUnique(regs + [row]) && KeysUnique(regs + [row])
  {
  }

  /** Two registration tables that differ at most in the status of their rows. */
  ghost predicate SameRowsUpToStatus(a: seq<Registration>, b: seq<Registration>) {
    && |a| == |b|
    && forall i :: 0 <= i < |a| ==> a[i] == b[i].(status := a[i].status)
  }

  lemma {:induction false} CountForUpToStatus(a: seq<Registration>, b: seq<Registration>, competitionId: Id)
    requires SameRowsUpToStatus(a, b)
    ensures CountFor(a, competitionId) == CountFor(b, competitionId)
    decreases |a|
  {
    if a != [] {
      var n := |a| - 1;
      assert SameRowsUpToStatus(a[..n], b[..n]) by {
        forall i | 0 <= i < n ensures a[..n][i] == b[..n][i].(status := a[..n][i].status) {
          assert a[..n][i] == a[i] && b[..n][i] == b[i];
        }
      }
      CountForUpToStatus(a[..n], b[..n], competitionId);
      assert a[n] == b[n].(status := a[n].status);
    }
  }

  /** Changing statuses alone cannot break any integrity condition. */
  lemma ValidUpToStatus(db: Db, regs: seq<Registration>)
    requires Valid(db)
    requires SameRowsUpToStatus(regs, db.registrations)
    ensures Valid(db.(registrations := regs))
  {
    var db' := db.(registrations := regs);
    forall c | c in db.competitions
      ensures CountFor(regs, c.id) <= c.capacity
    {
      CountForUpToStatus(regs, db.registrations, c.id);
    }
    forall x | x in regs
      ensures FindCompetition(db.competitions, x.competitionId).Some? && x.userId in db.users
      ensures x.id < db.nextId
    {
      var i :| 0 <= i < |regs| && regs[i] == x;
      assert db.registrations[i] in db.registrations;
    }
    forall i, j | 0 <= i < j < |regs|
      ensures regs[i].id != regs[j].id
      ensures regs[i].competitionId != regs[j].competitionId || regs[i].userId != regs[j].userId
      ensures regs[i].idempotencyKey.Some? ==> regs[i].idempotencyKey != regs[j].idempotencyKey
    {
      assert regs[i] == db.registrations[i].(status := regs[i].status);
      assert regs[j] == db.registrations[j].(status := regs[j].status);
    }
  }

  /** Under unique competition ids, the lookup finds exactly the row with that id. */
  lemma FindCompetitionUnique(cs: seq<Competition>, c: Competition)
    requires CompetitionsWellFormed(cs)
    requires c in cs
    ensures FindCompetition(cs, c.id) == Some(c)
  {
  }
}
