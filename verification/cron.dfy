/** The scheduler's two jobs, each a pure function of the store: the reminder
    scan, which enqueues one "notify" task per confirmed registrant of every
    competition starting within a day, and the purge of old registrations. */
module Cron {
  import opened Results
  import opened Schema
  import opened Queue

  // ---------------------------------------------------------------------------
  // Reminder scan
  // ---------------------------------------------------------------------------

  /** The scan window [now, now + 24h], both ends included. A competition
      without a start date is never in it. */
  predicate StartsWithinDay(c: Competition, now: Timestamp) {
    c.startDate.Some? && now <= c.startDate.value <= now + DayMs
  }

  /** A reminder is due for (competition, user): the competition starts within
      the window and the user holds a CONFIRMED registration for it. */
  ghost predicate ReminderDue(cs: seq<Competition>, regs: seq<Registration>, now: Timestamp, competitionId: Id, userId: Id) {
    exists c, x :: c in cs && x in regs
      && c.id == competitionId && StartsWithinDay(c, now)
      && x.competitionId == competitionId && x.userId == userId && x.status == Confirmed
  }

  /** One payload per CONFIRMED registration of the competition, in table order. */
  function RemindersFor(c: Competition, regs: seq<Registration>): (r: seq<ReminderData>)
    ensures forall d :: d in r <==>
      exists x :: x in regs && x.competitionId == c.id && x.status == Confirmed
                  && d == ReminderData(c.id, x.userId, c.title)
    decreases |regs|
  {
    if regs == [] then []
    else
      var head := if regs[0].competitionId == c.id && regs[0].status == Confirmed
        then [ReminderData(c.id, regs[0].userId, c.title)] else [];
      assert forall x :: x in regs <==> x == regs[0] || x in regs[1..];
      head + RemindersFor(c, regs[1..])
  }

  /** The scan's output: competitions in the window, crossed with their
      CONFIRMED registrations. */
  function ReminderTasks(cs: seq<Competition>, regs: seq<Registration>, now: Timestamp): (r: seq<ReminderData>)
    ensures forall d :: d in r <==>
      exists c, x :: c in cs && x in regs && StartsWithinDay(c, now)
                     && x.competitionId == c.id && x.status == Confirmed
                     && d == ReminderData(c.id, x.userId, c.title)
    decreases |cs|
  {
    if cs == [] then []
    else
      assert forall c :: c in cs <==> c == cs[0] || c in cs[1..];
      (if StartsWithinDay(cs[0], now) then RemindersFor(cs[0], regs) else [])
      + ReminderTasks(cs[1..], regs, now)
  }

  /** Adds one "notify" job per payload, in order, to the reminder queue. */
  function EnqueueReminders(q: Queues, ds: seq<ReminderData>): (r: Queues)
    ensures r.registration == q.registration
    ensures |r.reminder| == |q.reminder| + |ds|
    ensures r.reminder[..|q.reminder|] == q.reminder
    ensures forall i :: 0 <= i < |ds| ==> r.reminder[|q.reminder| + i] == Job(NotifyJobName, ds[i], RetryPolicy())
    decreases |ds|
  {
    if ds == [] then q
    else
      var q' := AddReminderNotification(q, ds[0]);
      var r := EnqueueReminders(q', ds[1..]);
      forall i | 0 <= i < |ds|
        ensures r.reminder[|q.reminder| + i] == Job(NotifyJobName, ds[i], RetryPolicy())
      {
        if i > 0 {
          assert ds[1..][i - 1] == ds[i];
        }
      }
      assert r.reminder[..|q.reminder|] == r.reminder[..|q'.reminder|][..|q.reminder|];
      r
  }

  /** The reminder scan. It only reads the store, so the store is unchanged
      by construction: only the queues are returned. */
  function HandleReminderNotifications(db: Db, q: Queues, now: Timestamp): (r: Queues)
    ensures r.registration == q.registration
    ensures |r.reminder| == |q.reminder| + |ReminderTasks(db.competitions, db.registrations, now)|
    ensures r.reminder[..|q.reminder|] == q.reminder
    ensures var tasks := ReminderTasks(db.competitions, db.registrations, now);
      forall i :: 0 <= i < |tasks| ==> r.reminder[|q.reminder| + i].data == tasks[i]
    ensures forall j :: |q.reminder| <= j < |r.reminder| ==>
           r.reminder[j].name == NotifyJobName && r.reminder[j].opts == RetryPolicy()
           && ReminderDue(db.competitions, db.registrations, now, r.reminder[j].data.competitionId, r.reminder[j].data.userId)
  {
    var tasks := ReminderTasks(db.competitions, db.registrations, now);
    var r := EnqueueReminders(q, tasks);
    TasksAreDue(db.competitions, db.registrations, now);
    forall j | |q.reminder| <= j < |r.reminder|
      ensures r.reminder[j].name == NotifyJobName && r.reminder[j].opts == RetryPolicy()
      ensures ReminderDue(db.competitions, db.registrations, now, r.reminder[j].data.competitionId, r.reminder[j].data.userId)
    {
      var i := j - |q.reminder|;
      assert r.reminder[j] == r.reminder[|q.reminder| + i];
      assert tasks[i] in tasks;
    }
    r
  }

  lemma TasksAreDue(cs: seq<Competition>, regs: seq<Registration>, now: Timestamp)
    ensures forall d :: d in ReminderTasks(cs, regs, now) ==> ReminderDue(cs, regs, now, d.competitionId, d.userId)
  {
  }

  /** How many payloads in `ds` are for the pair (competition, user). */
  function Occurrences(ds: seq<ReminderData>, competitionId: Id, userId: Id): (n: nat)
    ensures n <= |ds|
    ensures n == 0 <==> forall d :: d in ds ==> !(d.competitionId == competitionId && d.userId == userId)
    decreases |ds|
  {
    if ds == [] then 0
    else
      assert forall d :: d in ds <==> d == ds[0] || d in ds[1..];
      (if ds[0].competitionId == competitionId && ds[0].userId == userId then 1 else 0)
      + Occurrences(ds[1..], competitionId, userId)
  }

  lemma {:induction false} OccurrencesConcat(a: seq<ReminderData>, b: seq<ReminderData>, competitionId: Id, userId: Id)
    ensures Occurrences(a + b, competitionId, userId) == Occurrences(a, competitionId, userId) + Occurrences(b, competitionId, userId)
    decreases |a|
  {
    if a == [] {
      assert a + b == b;
    } else {
      assert (a + b)[0] == a[0];
      assert (a + b)[1..] == a[1..] + b;
      OccurrencesConcat(a[1..], b, competitionId, userId);
    }
  }

  /** Within one competition, a user with a CONFIRMED registration gets one
      payload, any other user none. */
  lemma {:induction false} RemindersForOnePerUser(c: Competition, regs: seq<Registration>, userId: Id)
    requires PairsUnique(regs)
    ensures Occurrences(RemindersFor(c, regs), c.id, userId)
         == if exists x :: x in regs && x.competitionId == c.id && x.userId == userId && x.status == Confirmed then 1 else 0
    decreases |regs|
  {
    if regs != [] {
      var rest := regs[1..];
      assert PairsUnique(rest) by {
        forall i, j | 0 <= i < j < |rest|
          ensures rest[i].competitionId != rest[j].competitionId || rest[i].userId != rest[j].userId
        {
          assert rest[i] == regs[i + 1] && rest[j] == regs[j + 1];
        }
      }
      RemindersForOnePerUser(c, rest, userId);
      var head := if regs[0].competitionId == c.id && regs[0].status == Confirmed
        then [ReminderData(c.id, regs[0].userId, c.title)] else [];
      OccurrencesConcat(head, RemindersFor(c, rest), c.id, userId);
      if regs[0].competitionId == c.id && regs[0].userId == userId {
        forall x | x in rest ensures !(x.competitionId == c.id && x.userId == userId) {
          var k :| 0 <= k < |rest| && rest[k] == x;
          assert regs[k + 1] == x;
        }
      }
      assert forall x :: x in regs <==> x == regs[0] || x in rest;
    }
  }

  ghost predicate HoldsConfirmed(regs: seq<Registration>, competitionId: Id, userId: Id) {
    exists x :: x in regs && x.competitionId == competitionId && x.userId == userId && x.status == Confirmed
  }

  /** The payloads one competition contributes to the scan, for one pair. */
  lemma ContributionOfOne(c: Competition, regs: seq<Registration>, now: Timestamp, competitionId: Id, userId: Id)
    requires PairsUnique(regs)
    ensures Occurrences(if StartsWithinDay(c, now) then RemindersFor(c, regs) else [], competitionId, userId)
         == if c.id == competitionId && StartsWithinDay(c, now) && HoldsConfirmed(regs, competitionId, userId) then 1 else 0
  {
    if StartsWithinDay(c, now) {
      if c.id == competitionId {
        RemindersForOnePerUser(c, regs, userId);
      } else {
        assert Occurrences(RemindersFor(c, regs), competitionId, userId) == 0;
      }
    }
  }

  lemma ReminderDueSplit(cs: seq<Competition>, regs: seq<Registration>, now: Timestamp, competitionId: Id, userId: Id)
    requires cs != []
    ensures ReminderDue(cs, regs, now, competitionId, userId)
        <==> (cs[0].id == competitionId && StartsWithinDay(cs[0], now) && HoldsConfirmed(regs, competitionId, userId))
             || ReminderDue(cs[1..], regs, now, competitionId, userId)
  {
  }

  /** Exactly one "notify" payload per due (competition, user) pair, and none
      for any other pair: PENDING registrants, competitions outside the
      window and competitions without a start date get nothing. */
  lemma {:induction false} ReminderTasksOnePerPair(cs: seq<Competition>, regs: seq<Registration>, now: Timestamp, competitionId: Id, userId: Id)
    requires CompetitionsWellFormed(cs)
    requires PairsUnique(regs)
    ensures Occurrences(ReminderTasks(cs, regs, now), competitionId, userId)
         == if ReminderDue(cs, regs, now, competitionId, userId) then 1 else 0
    decreases |cs|
  {
    if cs != [] {
      var rest := cs[1..];
      assert CompetitionsWellFormed(rest) by {
        forall i, j | 0 <= i < j < |rest| ensures rest[i].id != rest[j].id {
          assert rest[i] == cs[i + 1] && rest[j] == cs[j + 1];
        }
      }
      ReminderTasksOnePerPair(rest, regs, now, competitionId, userId);
      var head := if StartsWithinDay(cs[0], now) then RemindersFor(cs[0], regs) else [];
      OccurrencesConcat(head, ReminderTasks(rest, regs, now), competitionId, userId);
      ContributionOfOne(cs[0], regs, now, competitionId, userId);
      ReminderDueSplit(cs, regs, now, competitionId, userId);
      if cs[0].id == competitionId {
        forall c | c in rest ensures c.id != competitionId {
          var k :| 0 <= k < |rest| && rest[k] == c;
          assert cs[k + 1] == c;
        }
      }
    }
  }

  // ---------------------------------------------------------------------------
  // Purge
  // ---------------------------------------------------------------------------

  /** A registration the purge deletes: created more than 30 days ago, for a
      competition whose start is also more than 30 days ago. Both comparisons
      are strict; a competition without a start date keeps its registrations. */
  predicate Expired(cs: seq<Competition>, x: Registration, now: Timestamp) {
    var threshold := now - RetentionMs;
    && x.createdAt < threshold
    && exists c :: c in cs && c.id == x.competitionId && c.startDate.Some? && c.startDate.value < threshold
  }

  /** The registrations that survive the delete, in table order. */
  function Retained(cs: seq<Competition>, regs: seq<Registration>, now: Timestamp): (r: seq<Registration>)
    ensures forall x :: x in r <==> x in regs && !Expired(cs, x, now)
    ensures |r| <= |regs|
    decreases |regs|
  {
    if regs == [] then []
    else
      var n := |regs| - 1;
      assert forall x :: x in regs <==> x == regs[n] || x in regs[..n];
      var kept := Retained(cs, regs[..n], now);
      if Expired(cs, regs[n], now) then kept else kept + [regs[n]]
  }

  /** The daily purge; outside production mode it does nothing. */
  function PurgeOldRegistrations(db: Db, now: Timestamp, production: bool): (r: Db)
    ensures !production ==> r == db
    ensures production ==>
      forall x :: x in r.registrations <==> x in db.registrations && !Expired(db.competitions, x, now)
    ensures |r.registrations| <= |db.registrations|
    ensures r.competitions == db.competitions && r.users == db.users
    ensures r.mailbox == db.mailbox && r.nextId == db.nextId
  {
    if !production then db
    else db.(registrations := Retained(db.competitions, db.registrations, now))
  }

  lemma {:induction false} RetainedKeepsInvariants(cs: seq<Competition>, regs: seq<Registration>, now: Timestamp)
    requires IdsUnique(regs) && PairsUnique(regs) && KeysUnique(regs)
    ensures var kept := Retained(cs, regs, now);
      && IdsUnique(kept) && PairsUnique(kept) && KeysUnique(kept)
      && forall competitionId :: CountFor(kept, competitionId) <= CountFor(regs, competitionId)
    decreases |regs|
  {
    if regs != [] {
      var n := |regs| - 1;
      var prefix := regs[..n];
      assert IdsUnique(prefix) && PairsUnique(prefix) && KeysUnique(prefix);
      RetainedKeepsInvariants(cs, prefix, now);
      var kept := Retained(cs, prefix, now);
      var last := regs[n];
      if !Expired(cs, last, now) {
        forall x | x in kept
          ensures x.id != last.id
          ensures x.competitionId != last.competitionId || x.userId != last.userId
          ensures x.idempotencyKey.Some? ==> x.idempotencyKey != last.idempotencyKey
        {
          var k :| 0 <= k < n && prefix[k] == x;
          assert regs[k] == x;
        }
        AppendKeepsUniqueness(kept, last);
        forall competitionId
          ensures CountFor(kept + [last], competitionId) <= CountFor(regs, competitionId)
        {
          CountForAppend(kept, last, competitionId);
        }
      }
    }
  }

  /** The purge never breaks an integrity condition of the store. */
  lemma PurgePreservesValid(db: Db, now: Timestamp, production: bool)
    requires Valid(db)
    ensures Valid(PurgeOldRegistrations(db, now, production))
  {
    if production {
      RetainedKeepsInvariants(db.competitions, db.registrations, now);
    }
  }
}
