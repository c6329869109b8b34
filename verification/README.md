# Competition registration pipeline, in Dafny

A model of the backend core of the competition platform. Participants register for
competitions that have a fixed capacity. A background pipeline then confirms the
registrations, sends reminders and purges old data. The whole backend is one sequential
state machine over an immutable store:

- `Schema` (`schema.dfy`): the tables (competitions, users, registrations, mailbox),
  the lookups the services run on them, and the integrity conditions `Valid` keeps.
  These are positive capacities, unique competition ids, count ≤ capacity per
  competition, unique registration ids, unique (competition, user) pairs, unique
  idempotency keys, and intact foreign keys.
- `Queue` (`queue.dfy`): the queue facade (`QueueService`). It fixes the queue, the job
  name, the payload shape and the retry policy record (3 attempts, exponential backoff,
  2000 ms) for each task kind. A queue is the sequence of jobs added to it.
- `Registrations` (`registrations.dfy`): the admission controller
  (`RegistrationsService.register`). The checks run in this order: idempotency-key
  short-circuit, competition lookup, deadline, then the locked transaction (capacity,
  duplicate pair, `PENDING` insert), then the confirmation enqueue. The whole call,
  from the key lookup to the enqueue, is one atomic step of the model.
- `RegistrationProcessor` and `ReminderProcessor` (`registration_processor.dfy`,
  `reminder_processor.dfy`): the two workers. Each dispatches on the job name. The
  first writes a mailbox entry and marks the registration `CONFIRMED`. The second
  only writes a mailbox entry.
- `Cron` (`cron.dfy`): the reminder scan (competitions starting within 24 hours,
  crossed with their `CONFIRMED` registrations) and the production-only 30-day purge.
- `Pipeline` (`pipeline.dfy`): every operation as a transition of (store, queues).
  It proves that any sequence of calls, deliveries and scheduler firings keeps `Valid`.
  So, with every call one atomic step, no competition is ever oversold in the model.

Every failing operation returns `Err` and carries no state, so a failure changes
nothing. `Pipeline.Apply` makes this explicit.

Three behaviours of the code that the model keeps:

- the reminder window is closed at both ends (`gte now`, `lte now + 24h`), not half-open;
- an idempotency key takes part in the lookup only when it is truthy. The empty string
  skips the lookup but is still stored on the new row;
- an unknown job name or a missing registration or user throws a plain `Error`. The
  queue library would retry it under the job's policy. It is not a permanent failure.
  The model returns `Err` and does not model retries.

## Model

| member | source | states |
|---|---|---|
| Schema.FindCompetition | apps/backend/src/registrations/registrations.service.ts:36-47 | the lookup returns a row of the table with the requested id, and returns nothing exactly when no row has that id |
| Schema.FindByKey | apps/backend/src/registrations/registrations.service.ts:23-27 | the lookup by idempotency key returns a registration carrying that key, and returns nothing exactly when no registration carries it |
| Schema.FindByPair | apps/backend/src/registrations/registrations.service.ts:77-85 | the lookup by (competitionId, userId) returns a registration for that pair, and returns nothing exactly when the pair is not registered |
| Schema.FindRegistration | apps/backend/src/queue/processors/registration.processor.ts:31-37 | the lookup by registration id returns a row with that id, and returns nothing exactly when no row has it |
| Schema.CountFor | apps/backend/src/registrations/registrations.service.ts:59-60 | the per-competition count of registrations, of every status, is exactly the number of rows that name the competition, and so never exceeds the table size |
| Queue.RetryPolicy | apps/backend/src/queue/queue.service.ts:17-23 | the retry policy is 3 attempts with exponential backoff and a 2000 ms base delay |
| Queue.AddRegistrationConfirmation | apps/backend/src/queue/queue.service.ts:12-24 | adds exactly one job, named "confirmation", to the registration queue. Its payload is passed through unchanged and it carries the retry policy. Existing jobs and the reminder queue are unchanged |
| Queue.AddReminderNotification | apps/backend/src/queue/queue.service.ts:26-38 | adds exactly one job, named "notify", to the reminder queue. Its payload is passed through unchanged and it carries the retry policy. Existing jobs and the registration queue are unchanged |
| Registrations.Insert | apps/backend/src/registrations/registrations.service.ts:92-99 | the store accepts the new row if and only if its user exists and no row already has its (present) idempotency key. On acceptance the row is appended and the id counter advances |
| Registrations.AdmitLocked | apps/backend/src/registrations/registrations.service.ts:54-100 | inside the lock, a missing competition gives NotFound. A count ≥ capacity gives "Competition is full", checked before the duplicate check. An existing (competition, user) pair gives Conflict. Success implies count < capacity, no existing pair, and exactly one appended PENDING row carrying the given ids and key |
| Registrations.Register | apps/backend/src/registrations/registrations.service.ts:17-113 | a known truthy key returns that registration's id with the idempotent message and changes nothing. An unknown competition gives NotFound. `now > regDeadline` gives the deadline error, and a call at the deadline itself passes. Then come full, duplicate, and admission exactly when every check passes. When every check passes, the store decides: an unknown user, or a key an existing row already carries (only possible for the empty string), gives a ConstraintViolation. A successful admission adds one PENDING row and one matching confirmation job and returns "Registration successful". The idempotent message is returned only for a known truthy key, and then store and queues are unchanged |
| Registrations.RegisterPreservesValid | apps/backend/src/registrations/registrations.service.ts:54-100 | a call on a valid store leaves it valid: count ≤ capacity for every competition, with unique pairs, keys and ids and intact references |
| Registrations.RetryWithSameKeyIsIdempotent | apps/backend/src/registrations/registrations.service.ts:22-33 | after a successful call with a non-empty key, a retry with that key returns the same registration id and changes neither store nor queues. This holds whoever sends the retry, and whenever |
| Registrations.AdmitsWhileRoom | apps/backend/src/registrations/registrations.service.ts:70-99 | with a place free, before the deadline, an unregistered existing user calling without a key, or with a key no row carries (the empty string included), is admitted. The admission takes exactly one place and leaves every other user unregistered |
| Registrations.RefusesWhenFull | apps/backend/src/registrations/registrations.service.ts:70-75 | once a competition is full, every further call before the deadline, by any user and with any key that is not an already stored non-empty key, fails with "Competition is full" |
| Registrations.CallStep | apps/backend/src/registrations/registrations.service.ts:17-113 | a call with any key on a valid store leaves it valid with the competitions unchanged. An admission found a free place and raises the competition's count by exactly one. Any other successful reply (the idempotent one) leaves the store as it was |
| Registrations.CallsStayWithinFreePlaces | apps/backend/src/registrations/registrations.service.ts:17-113 | any sequence of calls for one competition, each seeing the store the previous one left, by any users (repeated, unknown or already registered) with any keys (absent, fresh, reused or stored), keeps the store valid, raises the count by exactly the number admitted, and admits no more than the free places (capacity − count) |
| Registrations.AdmitsOnePerFreePlace | apps/backend/src/registrations/registrations.service.ts:54-100 | N distinct unregistered users calling in turn before the deadline, each without a key or with a key that no row carries and no other caller uses, are admitted min(N, capacity − count) times |
| Registrations.FreePlacesAreFilledExactly | apps/backend/src/registrations/registrations.service.ts:54-100 | N distinct unregistered users calling before the deadline, each without a key or with its own key that no row carries (as a client sending a fresh random key per click does), are admitted exactly min(N, capacity − count) times. The count grows by exactly that many, and the store stays valid |
| RegistrationProcessor.Process | apps/backend/src/queue/processors/registration.processor.ts:14-22 | a job not named "confirmation" fails with "Unknown job type: <name>". A "confirmation" job is handled by the confirmation handler |
| RegistrationProcessor.HandleConfirmation | apps/backend/src/queue/processors/registration.processor.ts:24-66 | fails with "Registration not found" exactly when no registration has the id. Otherwise it appends exactly one mailbox entry, addressed to the registrant's email. The subject is "Registration Confirmed: " plus the competition title, and the metadata is {registrationId, competitionId, confirmation}. It also sets that registration to CONFIRMED, leaves all other rows, competitions and users unchanged, and returns success |
| RegistrationProcessor.MarkConfirmed | apps/backend/src/queue/processors/registration.processor.ts:57-61 | the status update makes the row with the id CONFIRMED and leaves every other row and field unchanged |
| RegistrationProcessor.ProcessMarksConfirmed | apps/backend/src/queue/processors/registration.processor.ts:39-61 | a "confirmation" job for an existing registration succeeds; the table afterwards is the status update applied to that id, and the mailbox grows by exactly one entry after the old ones |
| RegistrationProcessor.ProcessMailsRegistrant | apps/backend/src/queue/processors/registration.processor.ts:44-55 | the entry it writes is addressed to the email of the user the found registration belongs to and carries the job's registration and competition ids |
| RegistrationProcessor.ProcessPreservesValid | apps/backend/src/queue/processors/registration.processor.ts:44-61 | confirming a registration keeps every integrity condition of the store |
| RegistrationProcessor.ReplayIsIdempotent | apps/backend/src/queue/processors/registration.processor.ts:44-61 | redelivering a processed confirmation job succeeds again. The registration stays CONFIRMED and the table is unchanged; the only effect is one more mailbox entry |
| ReminderProcessor.Process | apps/backend/src/queue/processors/reminder.processor.ts:14-22 | a job not named "notify" fails with "Unknown job name: <name>". A "notify" job is handled by the notify handler |
| ReminderProcessor.HandleNotify | apps/backend/src/queue/processors/reminder.processor.ts:24-56 | fails with "User not found" exactly when the user does not exist. Otherwise it appends exactly one mailbox entry to the user's email. The subject is "Reminder: <title> starts soon!" and the metadata is {competitionId, userId, reminder}. Registrations, competitions and users are untouched, and it returns success |
| Cron.RemindersFor | apps/backend/src/cron/cron.service.ts:30-46 | a competition's payloads are exactly {competitionId, userId, title} for its CONFIRMED registrations. PENDING registrations get none |
| Cron.ReminderTasks | apps/backend/src/cron/cron.service.ts:20-50 | a payload is produced if and only if some competition has `now ≤ startDate ≤ now + 86400000` (both bounds inclusive, a start date required) and a CONFIRMED registration for it |
| Cron.EnqueueReminders | apps/backend/src/cron/cron.service.ts:40-50 | adds one "notify" job per payload, in order, with the retry policy. Existing jobs and the registration queue are unchanged |
| Cron.HandleReminderNotifications | apps/backend/src/cron/cron.service.ts:17-53 | the scan changes only the reminder queue. It adds one job per scanned payload, and every added job is named "notify", carries the retry policy and is for a due (competition, confirmed user) pair |
| Cron.TasksAreDue | apps/backend/src/cron/cron.service.ts:20-35 | every scanned payload is for a competition in the window and a user with a CONFIRMED registration for it |
| Cron.RemindersForOnePerUser | apps/backend/src/cron/cron.service.ts:30-46 | with unique (competition, user) pairs, one competition yields exactly one payload for a confirmed registrant and none for anyone else |
| Cron.ReminderTasksOnePerPair | apps/backend/src/cron/cron.service.ts:20-50 | with unique competition ids and pairs, the scan yields exactly one payload for each due (competition, user) pair and none for any other pair |
| Cron.Retained | apps/backend/src/cron/cron.service.ts:66-71 | a registration survives the delete if and only if it was in the table and it is not both created before `now − 30 days` and for a competition started before `now − 30 days` (strict comparisons) |
| Cron.PurgeOldRegistrations | apps/backend/src/cron/cron.service.ts:55-74 | outside production the store is unchanged. In production only registrations are removed: exactly the expired ones, nothing is added, and the other tables are unchanged |
| Cron.RetainedKeepsInvariants | apps/backend/src/cron/cron.service.ts:66-71 | deleting rows keeps ids, pairs and keys unique and never raises a competition's count |
| Cron.PurgePreservesValid | apps/backend/src/cron/cron.service.ts:55-74 | the purge keeps every integrity condition of the store |
| Pipeline.Apply | apps/backend/src/registrations/registrations.service.ts:54-100 | the cited span is the capacity check that bounds every admission; the transitions themselves are the rows of `Registrations.Register`, the two workers' `Process` and the `Cron` jobs. Every transition, whether a call, a worker pass on any job or a scheduler firing, keeps the store valid and never changes competitions or users |
| Pipeline.Run | apps/backend/src/registrations/registrations.service.ts:54-100 | after any sequence of transitions from a valid store, every competition holds at most its capacity and the store is still valid |
| Pipeline.RegisteredThenConfirmed | apps/backend/src/registrations/registrations.service.ts:102-107 | the confirmation job a successful call enqueues is accepted by the worker. The worker mails that user, with metadata naming the new registration and competition, and marks exactly the new row CONFIRMED |
| Pipeline.ScannedRemindersAreDeliverable | apps/backend/src/queue/processors/reminder.processor.ts:31-37 | on a valid store, every job the reminder scan enqueues is completed by the reminder worker, because its user exists |

## Left out

- Enqueue failure after commit: the source has no compensation for a committed registration whose confirmation enqueue fails. The model treats the enqueue as part of the successful step.
- Queue delivery, retries, backoff delay computation and dead-lettering belong to the queue library. The policy is kept as data (`Queue.RetryPolicy`). Workers take an arbitrary job, which covers redelivery and any delivery order.
- Database locking and concurrency: each call of `register` is one atomic step, from the unlocked idempotency-key lookup through the lookups, the locked transaction and the enqueue. Inside `Register`, the "Competition not found (locked)" branch of `AdmitLocked` therefore cannot be reached. In the source only the transaction is serialised: two concurrent calls with the same fresh key can both miss the key lookup, and the second then fails with "Already registered for this competition" (Conflict) instead of the idempotent reply. `Registrations.RetryWithSameKeyIsIdempotent` covers sequential retries only.
- Read isolation of the capacity count: the source reads `COUNT(*)` as a subquery of the same statement that takes the `FOR UPDATE` lock on the competition row. Under PostgreSQL's default READ COMMITTED isolation, that statement's snapshot is taken before it waits for the lock, so a waiting call may see a count that omits the lock holder's insert and admit one row too many. This reading of the code is not modelled; the model's "never oversold" holds under its atomic-call assumption. A worker's partial failure between the mailbox write and the status update is not modelled.
- The database schema is not part of this model. The store constraints checked on insert (user foreign key, unique idempotency key) are the ones the lookups and relations of the services imply. The competition foreign key and the unique (competition, user) index are established by the transaction's own checks.
- Clocks: `new Date()` is the `now` parameter. A new row's creation time is that same `now`. Timestamps are integer milliseconds.
- The purge threshold is `now − 30 × 86400000 ms`, not the calendar arithmetic `setDate(getDate() − 30)`, so daylight-saving shifts are not modelled. The production flag is a parameter in place of the environment variable.
- Cron schedules, timers, logging and the `_count` include, which the service never reads.
- Controllers, guards, DTO validation and authentication. The user id comes from the authenticated caller. Competition CRUD is outside the pipeline, which only reads competitions; `CompetitionsWellFormed` assumes the creation form's `capacity ≥ 1` and unique ids.
- Table order: the source queries have no ordering. The model scans competitions and registrations in table order. The per-pair count in `Cron.ReminderTasksOnePerPair` does not depend on that order.
- The reminder scan can enqueue a second reminder for the same pair when consecutive runs overlap the window. This matches the source and is not prevented.
- Registration ids: a new row's id is the store's `nextId` counter, a natural number that only grows. The database generates string ids; the model relies only on their uniqueness.
