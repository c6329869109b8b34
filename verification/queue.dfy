/** The queue facade: which queue each task kind goes to, its job name, its
    payload shape and its retry policy. Delivery, retries and dead-lettering
    belong to the queue library and are not modelled; a queue is the
    sequence of jobs added to it. */
module Queue {
  import opened Schema

  /** Job names the facade writes and the workers dispatch on. */
  const ConfirmationJobName: string := "confirmation"
  const NotifyJobName: string := "notify"

  datatype BackoffType = Fixed | Exponential

  datatype Backoff = Backoff(kind: BackoffType, delay: nat)

  /** Retry policy attached to a job: how many attempts in total, and the
      delay rule between them (delay in milliseconds). */
  datatype JobOptions = JobOptions(attempts: nat, backoff: Backoff)

  /** Payload of a job on the "registration" queue. */
  datatype ConfirmationData = ConfirmationData(registrationId: RegistrationId, userId: Id, competitionId: Id)

  /** Payload of a job on the "reminder" queue. */
  datatype ReminderData = ReminderData(competitionId: Id, userId: Id, competitionTitle: string)

  datatype Job<D> = Job(name: string, data: D, opts: JobOptions)

  /** What a worker returns for a job it completed: `{ success: true }`. */
  datatype JobResult = JobResult(success: bool)

  /** The two named queues, "registration" and "reminder". */
  datatype Queues = Queues(registration: seq<Job<ConfirmationData>>, reminder: seq<Job<ReminderData>>)

  /** The policy both kinds of task are enqueued with. */
  function RetryPolicy(): (p: JobOptions)
    ensures p.attempts == 3
    ensures p.backoff.kind == Exponential && p.backoff.delay == 2000
  {
    JobOptions(3, Backoff(Exponential, 2000))
  }

  function AddRegistrationConfirmation(q: Queues, data: ConfirmationData): (r: Queues)
    ensures r.reminder == q.reminder
    ensures |r.registration| == |q.registration| + 1
    ensures r.registration[..|q.registration|] == q.registration
    ensures var job := r.registration[|q.registration|];
      job.name == ConfirmationJobName && job.data == data && job.opts == RetryPolicy()
  {
    q.(registration := q.registration + [Job(ConfirmationJobName, data, RetryPolicy())])
  }

  function AddReminderNotification(q: Queues, data: ReminderData): (r: Queues)
    ensures r.registration == q.registration
    ensures |r.reminder| == |q.reminder| + 1
    ensures r.reminder[..|q.reminder|] == q.reminder
    ensures var job := r.reminder[|q.reminder|];
      job.name == NotifyJobName && job.data == data && job.opts == RetryPolicy()
  {
    q.(reminder := q.reminder + [Job(NotifyJobName, data, RetryPolicy())])
  }
}
