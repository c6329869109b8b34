/** The worker on the "reminder" queue: it writes a reminder to the mailbox
    and changes nothing else. */
module ReminderProcessor {
  import opened Results
  import opened Schema
  import opened Queue

  function ReminderSubject(title: string): string {
    "Reminder: " + title + " starts soon!"
  }

  function ReminderBody(user: User, title: string): string {
    "Hello " + user.name + ", this is a reminder that " + title
    + " is starting within 24 hours. Don't forget to participate!"
  }

  /** Dispatch on the job name: only "notify" is handled. */
  function Process(db: Db, job: Job<ReminderData>): (r: Result<(Db, JobResult)>)
    ensures job.name != NotifyJobName ==> r == Err(JobFailed("Unknown job name: " + job.name))
    ensures job.name == NotifyJobName ==> r == HandleNotify(db, job.data)
  {
    if job.name == NotifyJobName then HandleNotify(db, job.data)
    else Err(JobFailed("Unknown job name: " + job.name))
  }

  function HandleNotify(db: Db, data: ReminderData): (r: Result<(Db, JobResult)>)
    ensures r.Err? <==> data.userId !in db.users
    ensures r.Err? ==> r.error == JobFailed("User not found")
    ensures r.Ok? ==>
      var (db', res) := r.value;
      && res.success
      && data.userId in db.users
      && db'.mailbox == db.mailbox + [MailboxEntry(
           db.users[data.userId].email,
           ReminderSubject(data.competitionTitle),
           ReminderBody(db.users[data.userId], data.competitionTitle),
           ReminderMeta(data.competitionId, data.userId))]
      // registrations, competitions and users are never touched
      && db'.registrations == db.registrations
      && db'.competitions == db.competitions
      && db'.users == db.users && db'.nextId == db.nextId
  {
    if data.userId !in db.users then Err(JobFailed("User not found"))
    else
      var user := db.users[data.userId];
      var entry := MailboxEntry(
        user.email,
        ReminderSubject(data.competitionTitle),
        ReminderBody(user, data.competitionTitle),
        ReminderMeta(data.competitionId, data.userId));
      Ok((db.(mailbox := db.mailbox + [entry]), JobResult(true)))
  }
}
