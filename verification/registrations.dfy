/** The admission controller: `register(userId, competitionId,
    idempotencyKey?)`. A whole call, from the key lookup to the enqueue, is one
    atomic step of the model, so no other call can interleave between its
    count and its insert. */
module Registrations {
  import opened Results
  import opened Schema
  import opened Queue

  const IdempotentMessage: string := "Registration already exists (idempotent)"
  const SuccessMessage: string := "Registration successful"

  datatype RegisterResponse = RegisterResponse(registrationId: RegistrationId, message: string)

  /** A successful call: the new store, the new queues, and the response. */
  datatype Admission = Admission(db: Db, queues: Queues, response: RegisterResponse)

  /** The key takes part in the lookup only when it is truthy: an absent key
      and the empty string both skip it. */
  predicate KeySupplied(key: Option<string>) {
    key.Some? && key.value != ""
  }

  ghost predicate HasKey(regs: seq<Registration>, key: string) {
    exists x :: x in regs && x.idempotencyKey == Some(key)
  }

  ghost predicate HasPair(regs: seq<Registration>, competitionId: Id, userId: Id) {
    exists x :: x in regs && x.competitionId == competitionId && x.userId == userId
  }

  /** The row the transaction inserts: next id from the counter, PENDING,
      stamped with the current time. */
  function NewRow(db: Db, now: Timestamp, userId: Id, competitionId: Id, key: Option<string>): Registration {
    Registration(db.nextId, competitionId, userId, Pending, key, now)
  }

  /** The store's own checks on an insert: the user foreign key and the unique
      index on the idempotency key. The competition foreign key and the
      (competition, user) unique index are established by the transaction's
      checks before it inserts. */
  function Insert(db: Db, row: Registration): (r: Result<Db>)
    requires row.id == db.nextId
    ensures r.Ok? <==> row.userId in db.users
                       && (row.idempotencyKey.Some? ==> !HasKey(db.registrations, row.idempotencyKey.value))
    ensures r.Ok? ==> r.value == db.(registrations := db.registrations + [row], nextId := db.nextId + 1)
    ensures r.Err? ==> r.error.ConstraintViolation?
  {
    if row.userId !in db.users then
      Err(ConstraintViolation("Foreign key constraint failed on the field: userId"))
    else if row.idempotencyKey.Some? && FindByKey(db.registrations, row.idempotencyKey.value).Some? then
      Err(ConstraintViolation("Unique constraint failed on the fields: (idempotencyKey)"))
    else
      Ok(db.(registrations := db.registrations + [row], nextId := db.nextId + 1))
  }

  /** The locked transaction: count, then duplicate check, then insert. */
  function AdmitLocked(db: Db, now: Timestamp, userId: Id, competitionId: Id, key: Option<string>)
    : (r: Result<(Db, Registration)>)
    ensures FindCompetition(db.competitions, competitionId).None? ==>
      r == Err(NotFound("Competition not found (locked)"))
    ensures var found := FindCompetition(db.competitions, competitionId);
      found.Some? && CountFor(db.registrations, competitionId) >= found.value.capacity ==>
        r == Err(BadRequest("Competition is full"))
    ensures var found := FindCompetition(db.competitions, competitionId);
      found.Some? && CountFor(db.registrations, competitionId) < found.value.capacity
      && HasPair(db.registrations, competitionId, userId) ==>
        r == Err(Conflict("Already registered for this competition"))
    // Every check passing, the store's own constraints decide.
    ensures var found := FindCompetition(db.competitions, competitionId);
      found.Some? && CountFor(db.registrations, competitionId) < found.value.capacity
      && !HasPair(db.registrations, competitionId, userId) ==>
        (r.Ok? <==> userId in db.users && (key.Some? ==> !HasKey(db.registrations, key.value)))
    ensures r.Err? && r.error.ConstraintViolation? ==>
      FindCompetition(db.competitions, competitionId).Some? && !HasPair(db.registrations, competitionId, userId)
    ensures r.Ok? ==>
      var (db', row) := r.value;
      && (exists c :: c in db.competitions && c.id == competitionId && CountFor(db.registrations, competitionId) < c.capacity)
      && !HasPair(db.registrations, competitionId, userId)
      && userId in db.users && (key.Some? ==> !HasKey(db.registrations, key.value))
      && row == Registration(db.nextId, competitionId, userId, Pending, key, now)
      && db'.registrations == db.registrations + [row]
      && db'.nextId == db.nextId + 1
      && db'.competitions == db.competitions && db'.users == db.users && db'.mailbox == db.mailbox
  {
    match FindCompetition(db.competitions, competitionId)
    case None => Err(NotFound("Competition not found (locked)"))
    case Some(c) =>
      if CountFor(db.registrations, competitionId) >= c.capacity then
        Err(BadRequest("Competition is full"))
      else if FindByPair(db.registrations, competitionId, userId).Some? then
        Err(Conflict("Already registered for this competition"))
      else
        var row := NewRow(db, now, userId, competitionId, key);
        match Insert(db, row)
        case Err(e) => Err(e)
        case Ok(db') => Ok((db', row))
  }

  function Register(db: Db, q: Queues, now: Timestamp, userId: Id, competitionId: Id, key: Option<string>)
    : (r: Result<Admission>)
    // A known key short-circuits: its registration's id comes back and nothing changes.
    ensures KeySupplied(key) && HasKey(db.registrations, key.value) ==>
      && r.Ok? && r.value.db == db && r.value.queues == q
      && r.value.response.message == IdempotentMessage
      && exists x :: x in db.registrations && x.idempotencyKey == key && x.id == r.value.response.registrationId
    // Without a short-circuit, the competition must exist ...
    ensures !(KeySupplied(key) && HasKey(db.registrations, key.value))
            && (forall c :: c in db.competitions ==> c.id != competitionId) ==>
      r == Err(NotFound("Competition not found"))
    // ... and its deadline must not have passed (a call at the deadline itself passes this check).
    ensures var found := FindCompetition(db.competitions, competitionId);
      !(KeySupplied(key) && HasKey(db.registrations, key.value)) && found.Some? && now > found.value.regDeadline ==>
        r == Err(BadRequest("Registration deadline has passed"))
    // Inside the lock: capacity first, then the (competition, user) pair.
    ensures var found := FindCompetition(db.competitions, competitionId);
      !(KeySupplied(key) && HasKey(db.registrations, key.value)) && found.Some? && now <= found.value.regDeadline
      && CountFor(db.registrations, competitionId) >= found.value.capacity ==>
        r == Err(BadRequest("Competition is full"))
    ensures var found := FindCompetition(db.competitions, competitionId);
      !(KeySupplied(key) && HasKey(db.registrations, key.value)) && found.Some? && now <= found.value.regDeadline
      && CountFor(db.registrations, competitionId) < found.value.capacity
      && HasPair(db.registrations, competitionId, userId) ==>
        r == Err(Conflict("Already registered for this competition"))
    // Every check passing, and the store accepting the row, is exactly what admits.
    ensures var found := FindCompetition(db.competitions, competitionId);
      !(KeySupplied(key) && HasKey(db.registrations, key.value)) && found.Some? && now <= found.value.regDeadline
      && CountFor(db.registrations, competitionId) < found.value.capacity
      && !HasPair(db.registrations, competitionId, userId)
      && userId in db.users && (key.Some? ==> !HasKey(db.registrations, key.value)) ==>
        r.Ok? && r.value.response.message == SuccessMessage
    // ... and the store refusing the row (unknown user, or a stored empty-string key) fails the call.
    ensures var found := FindCompetition(db.competitions, competitionId);
      !(KeySupplied(key) && HasKey(db.registrations, key.value)) && found.Some? && now <= found.value.regDeadline
      && CountFor(db.registrations, competitionId) < found.value.capacity
      && !HasPair(db.registrations, competitionId, userId)
      && !(userId in db.users && (key.Some? ==> !HasKey(db.registrations, key.value))) ==>
        r.Err? && r.error.ConstraintViolation?
    ensures r.Ok? ==> r.value.response.message in {IdempotentMessage, SuccessMessage}
    // The idempotent reply comes only from the short-circuit, which changes nothing.
    ensures r.Ok? && r.value.response.message == IdempotentMessage ==>
      KeySupplied(key) && HasKey(db.registrations, key.value) && r.value.db == db && r.value.queues == q
    // A successful admission adds exactly one PENDING row and one matching confirmation task.
    ensures r.Ok? && r.value.response.message == SuccessMessage ==>
      var a := r.value;
      var row := Registration(db.nextId, competitionId, userId, Pending, key, now);
      && (exists c :: c in db.competitions && c.id == competitionId && now <= c.regDeadline
                      && CountFor(db.registrations, competitionId) < c.capacity)
      && !HasPair(db.registrations, competitionId, userId)
      && userId in db.users && (key.Some? ==> !HasKey(db.registrations, key.value))
      && a.response.registrationId == db.nextId
      && a.db.registrations == db.registrations + [row]
      && a.db.competitions == db.competitions && a.db.users == db.users && a.db.mailbox == db.mailbox
      && a.queues.reminder == q.reminder
      && a.queues.registration
         == q.registration + [Job(ConfirmationJobName, ConfirmationData(row.id, userId, competitionId), RetryPolicy())]
  {
    var prior := if KeySupplied(key) then FindByKey(db.registrations, key.value) else None;
    if prior.Some? then
      Ok(Admission(db, q, RegisterResponse(prior.value.id, IdempotentMessage)))
    else
      match FindCompetition(db.competitions, competitionId)
      case None => Err(NotFound("Competition not found"))
      case Some(c) =>
        if now > c.regDeadline then
          Err(BadRequest("Registration deadline has passed"))
        else
          match AdmitLocked(db, now, userId, competitionId, key)
          case Err(e) => Err(e)
          case Ok((db', row)) =>
            var q' := AddRegistrationConfirmation(q, ConfirmationData(row.id, userId, competitionId));
            Ok(Admission(db', q', RegisterResponse(row.id, SuccessMessage)))
  }

  // ---------------------------------------------------------------------------
  // Properties of single calls
  // ---------------------------------------------------------------------------

  /** A call never breaks an integrity condition of the store; in particular
      the count of every competition stays within its capacity. */
  lemma RegisterPreservesValid(db: Db, q: Queues, now: Timestamp, userId: Id, competitionId: Id, key: Option<string>)
    requires Valid(db)
    requires Register(db, q, now, userId, competitionId, key).Ok?
    ensures Valid(Register(db, q, now, userId, competitionId, key).value.db)
  {
    var a := Register(db, q, now, userId, competitionId, key).value;
    if a.response.message == SuccessMessage {
      var row := Registration(db.nextId, competitionId, userId, Pending, key, now);
      var regs := db.registrations;
      var c0 :| c0 in db.competitions && c0.id == competitionId && CountFor(regs, competitionId) < c0.capacity;
      forall c | c in db.competitions
        ensures CountFor(regs + [row], c.id) <= c.capacity
      {
        CountForAppend(regs, row, c.id);
        if c.id == competitionId {
          FindCompetitionUnique(db.competitions, c);
          FindCompetitionUnique(db.competitions, c0);
        }
      }
      AppendKeepsUniqueness(regs, row);
      FindCompetitionUnique(db.competitions, c0);
    }
  }

  /** Retrying with the same non-empty key, after a call that succeeded, by
      any user, for any competition, at any time, returns the same id and
      changes nothing. */
  lemma RetryWithSameKeyIsIdempotent(
    db: Db, q: Queues, now: Timestamp, userId: Id, competitionId: Id, key: string,
    now': Timestamp, userId': Id, competitionId': Id)
    requires Valid(db)
    requires key != ""
    requires Register(db, q, now, userId, competitionId, Some(key)).Ok?
    ensures var a := Register(db, q, now, userId, competitionId, Some(key)).value;
      Register(a.db, a.queues, now', userId', competitionId', Some(key))
      == Ok(Admission(a.db, a.queues, RegisterResponse(a.response.registrationId, IdempotentMessage)))
  {
    var a := Register(db, q, now, userId, competitionId, Some(key)).value;
    RegisterPreservesValid(db, q, now, userId, competitionId, Some(key));
    var x :| x in a.db.registrations && x.idempotencyKey == Some(key) && x.id == a.response.registrationId;
    var found := FindByKey(a.db.registrations, key).value;
    var i :| 0 <= i < |a.db.registrations| && a.db.registrations[i] == x;
    var j :| 0 <= j < |a.db.registrations| && a.db.registrations[j] == found;
    if i < j || j < i {
      assert false;
    }
  }

  // ---------------------------------------------------------------------------
  // Sequences of calls
  // ---------------------------------------------------------------------------

  function Min(a: int, b: int): int {
    if a <= b then a else b
  }

  /** Users calling one after another for the same competition, the i-th with
      the i-th idempotency key (or none), each call seeing the store the
      previous one left. Yields the final store and queues and how many calls
      were admitted, that is, answered with a new registration. */
  function RegisterEach(db: Db, q: Queues, now: Timestamp, competitionId: Id, users: seq<Id>, keys: seq<Option<string>>)
    : (r: (Db, Queues, nat))
    requires |keys| == |users|
    ensures r.2 <= |users|
    decreases |users|, 1
  {
    if users == [] then (db, q, 0)
    else CallThenRest(db, q, now, competitionId, users, keys)
  }

  /** The first caller's call, then the rest on the store it left. */
  function CallThenRest(db: Db, q: Queues, now: Timestamp, competitionId: Id, users: seq<Id>, keys: seq<Option<string>>)
    : (r: (Db, Queues, nat))
    requires users != [] && |keys| == |users|
    ensures r.2 <= |users|
    decreases |users|, 0
  {
    match Register(db, q, now, users[0], competitionId, keys[0])
    case Err(_) => RegisterEach(db, q, now, competitionId, users[1..], keys[1..])
    case Ok(a) =>
      var rest := RegisterEach(a.db, a.queues, now, competitionId, users[1..], keys[1..]);
      (rest.0, rest.1, rest.2 + if a.response.message == SuccessMessage then 1 else 0)
  }

  /** One call by an unregistered user, with a key no row carries (or none),
      while places are free is admitted, takes exactly one place, and leaves
      every other user unregistered. */
  lemma AdmitsWhileRoom(db: Db, q: Queues, now: Timestamp, c: Competition, userId: Id, key: Option<string>)
    requires Valid(db)
    requires c in db.competitions && now <= c.regDeadline
    requires userId in db.users && !HasPair(db.registrations, c.id, userId)
    requires key.Some? ==> !HasKey(db.registrations, key.value)
    requires CountFor(db.registrations, c.id) < c.capacity
    ensures var r := Register(db, q, now, userId, c.id, key);
      && r.Ok? && r.value.response.message == SuccessMessage
      && Valid(r.value.db)
      && r.value.db.competitions == db.competitions && r.value.db.users == db.users
      && CountFor(r.value.db.registrations, c.id) == CountFor(db.registrations, c.id) + 1
      && forall v :: v != userId && !HasPair(db.registrations, c.id, v) ==> !HasPair(r.value.db.registrations, c.id, v)
  {
    FindCompetitionUnique(db.competitions, c);
    RegisterPreservesValid(db, q, now, userId, c.id, key);
    var row := Registration(db.nextId, c.id, userId, Pending, key, now);
    CountForAppend(db.registrations, row, c.id);
  }

  /** Once the competition is full, every further call that is not answered
      from a stored key is refused. */
  lemma RefusesWhenFull(db: Db, q: Queues, now: Timestamp, c: Competition, userId: Id, key: Option<string>)
    requires CompetitionsWellFormed(db.competitions)
    requires c in db.competitions && now <= c.regDeadline
    requires CountFor(db.registrations, c.id) >= c.capacity
    requires !(KeySupplied(key) && HasKey(db.registrations, key.value))
    ensures Register(db, q, now, userId, c.id, key) == Err(BadRequest("Competition is full"))
  {
    FindCompetitionUnique(db.competitions, c);
  }

  /** A call by an existing, unregistered user with a fresh key (or none), with
      a place free and before the deadline, appends exactly its PENDING row. */
  lemma FreshAdmission(db: Db, q: Queues, now: Timestamp, c: Competition, userId: Id, key: Option<string>)
    requires CompetitionsWellFormed(db.competitions)
    requires c in db.competitions && now <= c.regDeadline
    requires userId in db.users && !HasPair(db.registrations, c.id, userId)
    requires key.Some? ==> !HasKey(db.registrations, key.value)
    requires CountFor(db.registrations, c.id) < c.capacity
    ensures var r := Register(db, q, now, userId, c.id, key);
      && r.Ok? && r.value.response.message == SuccessMessage
      && r.value.db.registrations == db.registrations + [Registration(db.nextId, c.id, userId, Pending, key, now)]
      && r.value.db.competitions == db.competitions && r.value.db.users == db.users
  {
    FindCompetitionUnique(db.competitions, c);
  }

  /** Every present key is stored nowhere and is not used again by a later
      call, stated call by call. */
  ghost predicate FreshKeys(db: Db, keys: seq<Option<string>>)
    decreases |keys|
  {
    keys == [] ||
      ((keys[0].Some? ==> !HasKey(db.registrations, keys[0].value) && keys[0] !in keys[1..])
       && FreshKeys(db, keys[1..]))
  }

  /** Appending one row whose key none of the calls uses leaves every key fresh. */
  lemma {:induction false} StillFreshKeys(db: Db, db1: Db, row: Registration, keys: seq<Option<string>>)
    requires FreshKeys(db, keys) && (row.idempotencyKey.None? || row.idempotencyKey !in keys)
    requires db1.registrations == db.registrations + [row]
    ensures FreshKeys(db1, keys)
    decreases |keys|
  {
    if keys != [] {
      assert keys[0] in keys;
      if keys[0].Some? {
        var k := keys[0].value;
        forall x | x in db1.registrations ensures x.idempotencyKey != Some(k) {
          if x != row {
            assert x in db.registrations;
          }
        }
      }
      assert forall o :: o in keys[1..] ==> o in keys;
      StillFreshKeys(db, db1, row, keys[1..]);
    }
  }

  /** The first of several callers, with a place free, is admitted. */
  lemma AdmitFirst(db: Db, q: Queues, now: Timestamp, c: Competition, users: seq<Id>, keys: seq<Option<string>>)
    returns (db': Db, q': Queues)
    requires CompetitionsWellFormed(db.competitions)
    requires c in db.competitions && now <= c.regDeadline
    requires users != [] && users[0] in db.users && !HasPair(db.registrations, c.id, users[0])
    requires |keys| == |users| && FreshKeys(db, keys)
    requires CountFor(db.registrations, c.id) < c.capacity
    ensures db'.competitions == db.competitions && db'.users == db.users
    ensures CountFor(db'.registrations, c.id) == CountFor(db.registrations, c.id) + 1
    ensures forall v :: v != users[0] && !HasPair(db.registrations, c.id, v) ==> !HasPair(db'.registrations, c.id, v)
    ensures FreshKeys(db', keys[1..])
    ensures RegisterEach(db, q, now, c.id, users, keys).2 == RegisterEach(db', q', now, c.id, users[1..], keys[1..]).2 + 1
  {
    FreshAdmission(db, q, now, c, users[0], keys[0]);
    var a := Register(db, q, now, users[0], c.id, keys[0]).value;
    var row := Registration(db.nextId, c.id, users[0], Pending, keys[0], now);
    CountForAppend(db.registrations, row, c.id);
    StillFreshKeys(db, a.db, row, keys[1..]);
    db', q' := a.db, a.queues;
  }

  /** The first of several callers, with no place free, is refused and changes nothing. */
  lemma RefuseFirst(db: Db, q: Queues, now: Timestamp, c: Competition, users: seq<Id>, keys: seq<Option<string>>)
    requires CompetitionsWellFormed(db.competitions)
    requires c in db.competitions && now <= c.regDeadline
    requires users != [] && |keys| == |users| && FreshKeys(db, keys)
    requires CountFor(db.registrations, c.id) >= c.capacity
    ensures FreshKeys(db, keys[1..])
    ensures RegisterEach(db, q, now, c.id, users, keys).2 == RegisterEach(db, q, now, c.id, users[1..], keys[1..]).2
  {
    RefusesWhenFull(db, q, now, c, users[0], keys[0]);
  }

  /** One call for the competition, whatever its outcome: an admission takes
      one of its free places, any other success changes nothing, and the
      store stays valid. */
  lemma CallStep(db: Db, q: Queues, now: Timestamp, c: Competition, userId: Id, key: Option<string>)
    requires Valid(db) && c in db.competitions
    ensures var r := Register(db, q, now, userId, c.id, key);
      r.Ok? ==> Valid(r.value.db) && r.value.db.competitions == db.competitions
    ensures var r := Register(db, q, now, userId, c.id, key);
      r.Ok? && r.value.response.message == SuccessMessage ==>
        && CountFor(db.registrations, c.id) < c.capacity
        && CountFor(r.value.db.registrations, c.id) == CountFor(db.registrations, c.id) + 1
    ensures var r := Register(db, q, now, userId, c.id, key);
      r.Ok? && r.value.response.message != SuccessMessage ==> r.value.db == db
  {
    var r := Register(db, q, now, userId, c.id, key);
    if r.Ok? {
      RegisterPreservesValid(db, q, now, userId, c.id, key);
      if r.value.response.message == SuccessMessage {
        var row := Registration(db.nextId, c.id, userId, Pending, key, now);
        CountForAppend(db.registrations, row, c.id);
        var c0 :| c0 in db.competitions && c0.id == c.id && now <= c0.regDeadline
                  && CountFor(db.registrations, c.id) < c0.capacity;
        FindCompetitionUnique(db.competitions, c0);
        FindCompetitionUnique(db.competitions, c);
      }
    }
  }

  /** Whoever calls, with whatever keys, in whatever order (repeated, unknown
      or already registered users, reused or stored keys, before or after the
      deadline), the calls never admit more than the free places, every
      admission is counted, and the store stays valid. */
  lemma {:induction false} CallsStayWithinFreePlaces(
    db: Db, q: Queues, now: Timestamp, c: Competition, users: seq<Id>, keys: seq<Option<string>>)
    requires Valid(db) && c in db.competitions && |keys| == |users|
    ensures var (db', _, n) := RegisterEach(db, q, now, c.id, users, keys);
      && Valid(db') && db'.competitions == db.competitions
      && CountFor(db'.registrations, c.id) == CountFor(db.registrations, c.id) + n
      && n <= c.capacity - CountFor(db.registrations, c.id)
    decreases |users|
  {
    if users != [] {
      CallStep(db, q, now, c, users[0], keys[0]);
      match Register(db, q, now, users[0], c.id, keys[0])
      case Err(_) =>
        CallsStayWithinFreePlaces(db, q, now, c, users[1..], keys[1..]);
      case Ok(a) =>
        CallsStayWithinFreePlaces(a.db, a.queues, now, c, users[1..], keys[1..]);
    }
  }

  /** The callers are pairwise distinct, stated call by call. */
  predicate Distinct(users: seq<Id>)
    decreases |users|
  {
    users == [] || (users[0] !in users[1..] && Distinct(users[1..]))
  }

  /** Every caller exists and holds no registration for the competition,
      stated call by call. */
  ghost predicate AllFresh(db: Db, c: Competition, users: seq<Id>)
    decreases |users|
  {
    users == [] ||
      (users[0] in db.users && !HasPair(db.registrations, c.id, users[0]) && AllFresh(db, c, users[1..]))
  }

  lemma {:induction false} CallersCallByCall(db: Db, c: Competition, users: seq<Id>)
    requires forall i, j :: 0 <= i < j < |users| ==> users[i] != users[j]
    requires forall u :: u in users ==> u in db.users && !HasPair(db.registrations, c.id, u)
    ensures Distinct(users) && AllFresh(db, c, users)
    decreases |users|
  {
    if users != [] {
      var rest := users[1..];
      forall i, j | 0 <= i < j < |rest| ensures rest[i] != rest[j] {
        assert rest[i] == users[i + 1] && rest[j] == users[j + 1];
      }
      forall u | u in rest ensures u in db.users && !HasPair(db.registrations, c.id, u) {
        var k :| 0 <= k < |rest| && rest[k] == u;
        assert users[k + 1] == u;
      }
      forall k | 0 <= k < |rest| ensures rest[k] != users[0] {
        assert rest[k] == users[k + 1];
      }
      assert users[0] in users;
      CallersCallByCall(db, c, rest);
    }
  }

  lemma {:induction false} KeysCallByCall(db: Db, keys: seq<Option<string>>)
    requires forall i :: 0 <= i < |keys| && keys[i].Some? ==> !HasKey(db.registrations, keys[i].value)
    requires forall i, j :: 0 <= i < j < |keys| && keys[i].Some? ==> keys[i] != keys[j]
    ensures FreshKeys(db, keys)
    decreases |keys|
  {
    if keys != [] {
      var rest := keys[1..];
      forall i | 0 <= i < |rest| && rest[i].Some? ensures !HasKey(db.registrations, rest[i].value) {
        assert rest[i] == keys[i + 1];
      }
      forall i, j | 0 <= i < j < |rest| && rest[i].Some? ensures rest[i] != rest[j] {
        assert rest[i] == keys[i + 1] && rest[j] == keys[j + 1];
      }
      if keys[0].Some? {
        forall k | 0 <= k < |rest| ensures rest[k] != keys[0] {
          assert rest[k] == keys[k + 1];
        }
      }
      KeysCallByCall(db, rest);
    }
  }

  /** A call that registered no one but `first` leaves every other caller fresh. */
  lemma {:induction false} StillFresh(db: Db, db1: Db, c: Competition, first: Id, users: seq<Id>)
    requires AllFresh(db, c, users) && first !in users
    requires db1.users == db.users
    requires forall v :: v != first && !HasPair(db.registrations, c.id, v) ==> !HasPair(db1.registrations, c.id, v)
    ensures AllFresh(db1, c, users)
    decreases |users|
  {
    if users != [] {
      assert users[0] in users;
      assert forall u :: u in users[1..] ==> u in users;
      StillFresh(db, db1, c, first, users[1..]);
    }
  }

  /** Registration for the competition is open and its count is within capacity. */
  ghost predicate Open(db: Db, now: Timestamp, c: Competition) {
    && CompetitionsWellFormed(db.competitions)
    && c in db.competitions && now <= c.regDeadline
    && CountFor(db.registrations, c.id) <= c.capacity
  }

  /** N distinct users, none yet registered, each calling once before the
      deadline with a fresh key (or none), are admitted once per free place,
      up to N. */
  lemma {:induction false} AdmitsOnePerFreePlace(
    db: Db, q: Queues, now: Timestamp, c: Competition, users: seq<Id>, keys: seq<Option<string>>)
    requires Open(db, now, c) && Distinct(users) && AllFresh(db, c, users)
    requires |keys| == |users| && FreshKeys(db, keys)
    ensures RegisterEach(db, q, now, c.id, users, keys).2 == Min(|users|, c.capacity - CountFor(db.registrations, c.id))
    decreases |users|, 1
  {
    if users != [] {
      if CountFor(db.registrations, c.id) < c.capacity {
        FirstTakesAPlace(db, q, now, c, users, keys);
      } else {
        FirstIsTurnedAway(db, q, now, c, users, keys);
      }
    }
  }

  lemma {:induction false} FirstTakesAPlace(
    db: Db, q: Queues, now: Timestamp, c: Competition, users: seq<Id>, keys: seq<Option<string>>)
    requires Open(db, now, c) && Distinct(users) && AllFresh(db, c, users)
    requires |keys| == |users| && FreshKeys(db, keys)
    requires users != [] && CountFor(db.registrations, c.id) < c.capacity
    ensures RegisterEach(db, q, now, c.id, users, keys).2 == Min(|users|, c.capacity - CountFor(db.registrations, c.id))
    decreases |users|, 0
  {
    var db1, q1 := AdmitFirst(db, q, now, c, users, keys);
    StillFresh(db, db1, c, users[0], users[1..]);
    AdmitsOnePerFreePlace(db1, q1, now, c, users[1..], keys[1..]);
  }

  lemma {:induction false} FirstIsTurnedAway(
    db: Db, q: Queues, now: Timestamp, c: Competition, users: seq<Id>, keys: seq<Option<string>>)
    requires Open(db, now, c) && Distinct(users) && AllFresh(db, c, users)
    requires |keys| == |users| && FreshKeys(db, keys)
    requires users != [] && CountFor(db.registrations, c.id) == c.capacity
    ensures RegisterEach(db, q, now, c.id, users, keys).2 == 0
    decreases |users|, 0
  {
    RefuseFirst(db, q, now, c, users, keys);
    AdmitsOnePerFreePlace(db, q, now, c, users[1..], keys[1..]);
  }

  /** N distinct users, none yet registered, each calling once before the
      deadline with a key that is fresh and not shared with another caller
      (or with none): as many are admitted as there are free places, and no
      more. From an empty competition that is min(N, capacity). */
  lemma FreePlacesAreFilledExactly(
    db: Db, q: Queues, now: Timestamp, c: Competition, users: seq<Id>, keys: seq<Option<string>>)
    requires Valid(db)
    requires c in db.competitions && now <= c.regDeadline
    requires forall i, j :: 0 <= i < j < |users| ==> users[i] != users[j]
    requires forall u :: u in users ==> u in db.users && !HasPair(db.registrations, c.id, u)
    requires |keys| == |users|
    requires forall i :: 0 <= i < |keys| && keys[i].Some? ==> !HasKey(db.registrations, keys[i].value)
    requires forall i, j :: 0 <= i < j < |keys| && keys[i].Some? ==> keys[i] != keys[j]
    ensures var (db', _, n) := RegisterEach(db, q, now, c.id, users, keys);
      && n == Min(|users|, c.capacity - CountFor(db.registrations, c.id))
      && CountFor(db'.registrations, c.id) == CountFor(db.registrations, c.id) + n
      && Valid(db')
  {
    CallersCallByCall(db, c, users);
    KeysCallByCall(db, keys);
    AdmitsOnePerFreePlace(db, q, now, c, users, keys);
    CallsStayWithinFreePlaces(db, q, now, c, users, keys);
  }
}
