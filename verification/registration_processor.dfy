/** The worker on the "registration" queue: it writes a confirmation to the
    mailbox and moves the registration from PENDING to CONFIRMED. */
module RegistrationProcessor {
  import opened Results
  import opened Schema
  import opened Queue

  function ConfirmationSubject(title: string): string {
    "Registration Confirmed: " + title
  }

  function ConfirmationBody(user: User, title: string): string {
    "Hello " + user.name + ", your registration for " + title + " has been confirmed!"
  }

  /** The status update: the row with the given id becomes CONFIRMED, every
      other row keeps its value. */
  function MarkConfirmed(regs: seq<Registration>, id: RegistrationId): (r: seq<Registration>)
    ensures SameRowsUpToStatus(r, regs)
    ensures forall i :: 0 <= i < |regs| && regs[i].id == id ==> r[i].status == Confirmed
    ensures forall i :: 0 <= i < |regs| && regs[i].id != id ==> r[i] == regs[i]
    ensures forall x :: x in r && x.id == id ==> x.status == Confirmed
  {
    seq(|regs|, i requires 0 <= i < |regs| => if regs[i].id == id then regs[i].(status := Confirmed) else regs[i])
  }

  /** Dispatch on the job name: only "confirmation" is handled. */
  function Process(db: Db, job: Job<ConfirmationData>): (r: Result<(Db, JobResult)>)
    requires ReferencesIntact(db)
    ensures job.name != ConfirmationJobName ==> r == Err(JobFailed("Unknown job type: " + job.name))
    ensures job.name == ConfirmationJobName ==> r == HandleConfirmation(db, job.data)
  {
    if job.name == ConfirmationJobName then HandleConfirmation(db, job.data)
    else Err(JobFailed("Unknown job type: " + job.name))
  }

  /** The store's foreign keys guarantee that a registration's user and
      competition exist, which is what lets the worker read them. */
  function HandleConfirmation(db: Db, data: ConfirmationData): (r: Result<(Db, JobResult)>)
    requires ReferencesIntact(db)
    ensures r.Err? <==> forall x :: x in db.registrations ==> x.id != data.registrationId
    ensures r.Err? ==> r.error == JobFailed("Registration not found")
    ensures r.Ok? ==>
      var (db', res) := r.value;
      && res.success
      // one mailbox entry, addressed to the registrant, about the registration's competition
      && (exists x, c :: x in db.registrations && x.id == data.registrationId && x.userId in db.users
            && c in db.competitions && c.id == x.competitionId
            && db'.mailbox == db.mailbox + [MailboxEntry(
                 db.users[x.userId].email,
                 ConfirmationSubject(c.title),
                 ConfirmationBody(db.users[x.userId], c.title),
                 ConfirmationMeta(data.registrationId, data.competitionId))])
      // the referenced registration is CONFIRMED, nothing else changes
      && SameRowsUpToStatus(db'.registrations, db.registrations)
      && (forall i :: 0 <= i < |db.registrations| && db.registrations[i].id == data.registrationId ==>
            db'.registrations[i].status == Confirmed)
      && (forall i :: 0 <= i < |db.registrations| && db.registrations[i].id != data.registrationId ==>
            db'.registrations[i] == db.registrations[i])
      && db'.competitions == db.competitions && db'.users == db.users && db'.nextId == db.nextId
  {
    match FindRegistration(db.registrations, data.registrationId)
    case None => Err(JobFailed("Registration not found"))
    case Some(reg) =>
      var user := db.users[reg.userId];
      var competition := FindCompetition(db.competitions, reg.competitionId).value;
      var entry := MailboxEntry(
        user.email,
        ConfirmationSubject(competition.title),
        ConfirmationBody(user, competition.title),
        ConfirmationMeta(data.registrationId, data.competitionId));
      var db' := db.(mailbox := db.mailbox + [entry]);
      Ok((db'.(registrations := MarkConfirmed(db'.registrations, data.registrationId)), JobResult(true)))
  }

  /** Processing never breaks an integrity condition of the store. */
  lemma ProcessPreservesValid(db: Db, job: Job<ConfirmationData>)
    requires Valid(db)
    requires job.name == ConfirmationJobName
    requires FindRegistration(db.registrations, job.data.registrationId).Some?
    ensures Valid(Process(db, job).value.0)
  {
    var db' := Process(db, job).value.0;
    ValidUpToStatus(db.(mailbox := db'.mailbox), db'.registrations);
  }

  lemma ProcessKeepsReferences(db: Db, job: Job<ConfirmationData>)
    requires ReferencesIntact(db)
    requires job.name == ConfirmationJobName
    requires FindRegistration(db.registrations, job.data.registrationId).Some?
    ensures ReferencesIntact(Process(db, job).value.0)
  {
    var db1 := Process(db, job).value.0;
    forall x | x in db1.registrations
      ensures FindCompetition(db1.competitions, x.competitionId).Some? && x.userId in db1.users
    {
      var i :| 0 <= i < |db1.registrations| && db1.registrations[i] == x;
      assert db.registrations[i] in db.registrations;
    }
  }

  lemma MarkConfirmedTwice(regs: seq<Registration>, id: RegistrationId)
    ensures MarkConfirmed(MarkConfirmed(regs, id), id) == MarkConfirmed(regs, id)
  {
  }

  lemma ProcessMarksConfirmed(db: Db, job: Job<ConfirmationData>)
    requires ReferencesIntact(db)
    requires job.name == ConfirmationJobName
    requires FindRegistration(db.registrations, job.data.registrationId).Some?
    ensures Process(db, job).Ok?
    ensures Process(db, job).value.0.registrations == MarkConfirmed(db.registrations, job.data.registrationId)
    ensures Process(db, job).value.0.mailbox[..|db.mailbox|] == db.mailbox
    ensures |Process(db, job).value.0.mailbox| == |db.mailbox| + 1
  {
  }

  /** The entry a successful pass writes is addressed to the registration's user. */
  lemma ProcessMailsRegistrant(db: Db, job: Job<ConfirmationData>)
    requires ReferencesIntact(db)
    requires job.name == ConfirmationJobName
    requires FindRegistration(db.registrations, job.data.registrationId).Some?
    ensures Process(db, job).Ok?
    ensures var reg := FindRegistration(db.registrations, job.data.registrationId).value;
      var db' := Process(db, job).value.0;
      && reg.userId in db.users
      && |db'.mailbox| == |db.mailbox| + 1
      && db'.mailbox[|db.mailbox|].to == db.users[reg.userId].email
      && db'.mailbox[|db.mailbox|].metadata == ConfirmationMeta(job.data.registrationId, job.data.competitionId)
  {
  }

  /** Redelivering a processed job is harmless: it succeeds again, the
      registration stays CONFIRMED and the table is as the first pass left it;
      the only effect is one more mailbox entry. */
  lemma ReplayIsIdempotent(db: Db, job: Job<ConfirmationData>)
    requires ReferencesIntact(db)
    requires job.name == ConfirmationJobName
    requires FindRegistration(db.registrations, job.data.registrationId).Some?
    ensures var db1 := Process(db, job).value.0;
      && ReferencesIntact(db1)
      && Process(db1, job).Ok?
      && var db2 := Process(db1, job).value.0;
      && db2.registrations == db1.registrations
      && |db2.mailbox| == |db1.mailbox| + 1 && db2.mailbox[..|db1.mailbox|] == db1.mailbox
      && forall x :: x in db2.registrations && x.id == job.data.registrationId ==> x.status == Confirmed
  {
    var id := job.data.registrationId;
    var db1 := Process(db, job).value.0;
    ProcessKeepsReferences(db, job);
    var x := FindRegistration(db.registrations, id).value;
    var i :| 0 <= i < |db.registrations| && db.registrations[i] == x;
    assert db1.registrations[i] in db1.registrations;
    assert db1.registrations[i].id == id;
    assert FindRegistration(db1.registrations, id).Some?;
    var db2 := Process(db1, job).value.0;
    ProcessMarksConfirmed(db, job);
    ProcessMarksConfirmed(db1, job);
    MarkConfirmedTwice(db.registrations, id);
  }
}
