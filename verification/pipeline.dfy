/** The whole backend as one sequential state machine: every service and
    worker is a transition of the store and the queues. */
module Pipeline {
  import opened Results
  import opened Schema
  import opened Queue
  import opened Registrations
  import opened Cron
  import RegistrationProcessor
  import ReminderProcessor

  datatype System = System(db: Db, queues: Queues)

  /** One event: an HTTP registration call, a worker handed some job (any
      job, in any order, any number of times: delivery and redelivery are the
      queue library's business), or a scheduler firing. */
  datatype Step =
    | RegisterCall(now: Timestamp, userId: Id, competitionId: Id, key: Option<string>)
    | DeliverConfirmation(confirmation: Job<ConfirmationData>)
    | DeliverReminder(reminder: Job<ReminderData>)
    | ReminderScan(now: Timestamp)
    | Purge(now: Timestamp, production: bool)

  /** A failed call or job leaves the system as it was. */
  function Apply(s: System, step: Step): (r: System)
    requires Valid(s.db)
    ensures Valid(r.db)
    ensures r.db.competitions == s.db.competitions && r.db.users == s.db.users
  {
    match step
    case RegisterCall(now, userId, competitionId, key) =>
      (match Register(s.db, s.queues, now, userId, competitionId, key)
       case Err(_) => s
       case Ok(a) =>
         RegisterPreservesValid(s.db, s.queues, now, userId, competitionId, key);
         System(a.db, a.queues))
    case DeliverConfirmation(job) =>
      (match RegistrationProcessor.Process(s.db, job)
       case Err(_) => s
       case Ok((db', _)) =>
         RegistrationProcessor.ProcessPreservesValid(s.db, job);
         s.(db := db'))
    case DeliverReminder(job) =>
      (match ReminderProcessor.Process(s.db, job)
       case Err(_) => s
       case Ok((db', _)) => s.(db := db'))
    case ReminderScan(now) =>
      s.(queues := HandleReminderNotifications(s.db, s.queues, now))
    case Purge(now, production) =>
      PurgePreservesValid(s.db, now, production);
      s.(db := PurgeOldRegistrations(s.db, now, production))
  }

  /** Any sequence of events keeps every integrity condition: in particular no
      competition ever holds more registrations than its capacity, and no
      (competition, user) pair or idempotency key is ever held twice. */
  function Run(s: System, steps: seq<Step>): (r: System)
    requires Valid(s.db)
    ensures Valid(r.db)
    ensures forall c :: c in r.db.competitions ==> CountFor(r.db.registrations, c.id) <= c.capacity
    ensures r.db.competitions == s.db.competitions
    decreases |steps|
  {
    if steps == [] then s
    else Run(Apply(s, steps[0]), steps[1..])
  }

  /** Marking the last row of a table whose other ids differ confirms that row alone. */
  lemma ConfirmLastRow(prefix: seq<Registration>, row: Registration)
    requires forall x :: x in prefix ==> x.id != row.id
    ensures RegistrationProcessor.MarkConfirmed(prefix + [row], row.id) == prefix + [row.(status := Confirmed)]
  {
    var got := RegistrationProcessor.MarkConfirmed(prefix + [row], row.id);
    var want := prefix + [row.(status := Confirmed)];
    forall i | 0 <= i < |prefix| ensures got[i] == want[i] {
      assert prefix[i] in prefix;
      assert (prefix + [row])[i] == prefix[i];
    }
    assert got[|prefix|] == want[|prefix|];
  }

  /** Confirming a freshly appended row touches that row alone. */
  lemma ConfirmAppendedRow(db: Db, prefix: seq<Registration>, row: Registration, job: Job<ConfirmationData>)
    requires ReferencesIntact(db)
    requires db.registrations == prefix + [row]
    requires forall x :: x in prefix ==> x.id != row.id
    requires job.name == ConfirmationJobName && job.data.registrationId == row.id
    ensures RegistrationProcessor.Process(db, job).Ok?
    ensures var db' := RegistrationProcessor.Process(db, job).value.0;
      && |db'.mailbox| == |db.mailbox| + 1
      && db'.mailbox[|db.mailbox|].to == db.users[row.userId].email
      && db'.mailbox[|db.mailbox|].metadata == ConfirmationMeta(row.id, job.data.competitionId)
      && db'.registrations == prefix + [row.(status := Confirmed)]
  {
    assert db.registrations[|prefix|] == row;
    assert row in db.registrations;
    assert FindRegistration(db.registrations, row.id).Some?;
    RegistrationProcessor.ProcessMarksConfirmed(db, job);
    ConfirmLastRow(prefix, row);
    RegistrationProcessor.ProcessMailsRegistrant(db, job);
    assert FindRegistration(db.registrations, row.id).value == row by {
      var found := FindRegistration(db.registrations, row.id).value;
      assert found.id == row.id;
      assert found !in prefix;
      assert found in prefix + [row];
    }
  }

  /** The confirmation task a successful call enqueues is accepted by the
      worker, which confirms exactly that registration and mails its user. */
  lemma RegisteredThenConfirmed(db: Db, q: Queues, now: Timestamp, userId: Id, competitionId: Id, key: Option<string>)
    requires Valid(db)
    requires Register(db, q, now, userId, competitionId, key).Ok?
    requires Register(db, q, now, userId, competitionId, key).value.response.message == SuccessMessage
    ensures var a := Register(db, q, now, userId, competitionId, key).value;
      var job := a.queues.registration[|a.queues.registration| - 1];
      && RegistrationProcessor.Process(a.db, job).Ok?
      && var db' := RegistrationProcessor.Process(a.db, job).value.0;
      && |db'.mailbox| == |a.db.mailbox| + 1
      && db'.mailbox[|a.db.mailbox|].to == db.users[userId].email
      && db'.mailbox[|a.db.mailbox|].metadata == ConfirmationMeta(a.response.registrationId, competitionId)
      && db'.registrations == db.registrations + [Registration(a.response.registrationId, competitionId, userId, Confirmed, key, now)]
  {
    var a := Register(db, q, now, userId, competitionId, key).value;
    RegisterPreservesValid(db, q, now, userId, competitionId, key);
    var row := Registration(db.nextId, competitionId, userId, Pending, key, now);
    var job := a.queues.registration[|a.queues.registration| - 1];
    ConfirmAppendedRow(a.db, db.registrations, row, job);
  }

  /** Every task the reminder scan enqueues is one the reminder worker can
      complete: its user exists. */
  lemma ScannedRemindersAreDeliverable(db: Db, q: Queues, now: Timestamp, j: nat)
    requires Valid(db)
    requires |q.reminder| <= j < |HandleReminderNotifications(db, q, now).reminder|
    ensures ReminderProcessor.Process(db, HandleReminderNotifications(db, q, now).reminder[j]).Ok?
  {
    var job := HandleReminderNotifications(db, q, now).reminder[j];
    assert ReminderDue(db.competitions, db.registrations, now, job.data.competitionId, job.data.userId);
  }
}
