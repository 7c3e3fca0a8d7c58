/** `app/routers/registrations.py`: self-service registration for events.
    `register_for_event` runs three checks in order (the event exists, the
    caller is not registered yet, the event is not full) and only then
    inserts one row; the two store invariants this protects, at most one
    registration per (user, event) pair and no event past its capacity, are
    proved of the checks in `RegisterKeepsInvariants`. */
module Registrations {
  import opened Common
  import opened Models

  /** Position of the first registration of `userId` for `eventId`
      (`query(Registration).filter(user_id == ..., event_id == ...).first()`). */
  function FindRegistration(regs: seq<Registration>, userId: int, eventId: int): (r: Option<nat>)
    ensures r.Some? ==> r.value < |regs| && regs[r.value].userId == userId && regs[r.value].eventId == eventId
    ensures r.Some? ==> forall j :: 0 <= j < r.value ==> !(regs[j].userId == userId && regs[j].eventId == eventId)
    ensures r.None? <==> forall x :: x in regs ==> !(x.userId == userId && x.eventId == eventId)
  {
    if regs == [] then None
    else if regs[0].userId == userId && regs[0].eventId == eventId then Some(0)
    else
      match FindRegistration(regs[1..], userId, eventId)
      case None => assert forall x :: x in regs ==> x == regs[0] || x in regs[1..]; None
      case Some(k) => Some(k + 1)
  }

  /** The checks of `register_for_event`, in the order the handler makes
      them; `None` means the registration may be inserted. */
  function RegisterCheck(events: seq<Event>, regs: seq<Registration>, userId: int, eventId: int): (r: Option<Error>)
    ensures FindEventIn(events, eventId).None? <==> r == Some(NotFound(EventMissing))
    ensures r == Some(BadRequest(AlreadyRegistered)) <==>
      FindEventIn(events, eventId).Some? && FindRegistration(regs, userId, eventId).Some?
    ensures r == Some(BadRequest(EventFull)) <==>
      && FindEventIn(events, eventId).Some?
      && FindRegistration(regs, userId, eventId).None?
      && IsFull(FindEventIn(events, eventId).value, regs)
    ensures r.None? || r == Some(NotFound(EventMissing)) || r == Some(BadRequest(AlreadyRegistered)) || r == Some(BadRequest(EventFull))
  {
    match FindEventIn(events, eventId)
    case None => Some(NotFound(EventMissing))
    case Some(event) =>
      if FindRegistration(regs, userId, eventId).Some? then Some(BadRequest(AlreadyRegistered))
      else if IsFull(event, regs) then Some(BadRequest(EventFull))
      else None
  }

  /** Inserting the row the checks admitted keeps at most one registration
      per pair and every event within its capacity. */
  lemma RegisterKeepsInvariants(events: seq<Event>, regs: seq<Registration>, r: Registration)
    requires Pairwise(events, DistinctEvents())
    requires Pairwise(regs, DistinctRegistrations())
    requires forall x :: x in regs ==> x.id < r.id
    requires WithinCapacity(events, regs)
    requires RegisterCheck(events, regs, r.userId, r.eventId).None?
    ensures Pairwise(regs + [r], DistinctRegistrations())
    ensures WithinCapacity(events, regs + [r])
  {
    var ev := FindEventIn(events, r.eventId).value;
    forall i | 0 <= i < |regs| ensures DistinctRegistrations()(regs[i], r) {
      assert regs[i] in regs;
    }
    PairwiseAppend(regs, r, DistinctRegistrations());
    forall e | e in events && e.capacity.Some? ensures RegisteredCount(e, regs + [r]) <= e.capacity.value {
      RegisteredCountAppend(e, regs, r);
      if e.id == r.eventId {
        var i :| 0 <= i < |events| && events[i] == e;
        var j :| 0 <= j < |events| && events[j] == ev;
        assert i == j;
      }
    }
  }

  /** Registering twice for the same event: the second call is refused. */
  lemma SecondRegistrationRefused(events: seq<Event>, regs: seq<Registration>, r: Registration)
    requires RegisterCheck(events, regs, r.userId, r.eventId).None?
    ensures RegisterCheck(events, regs + [r], r.userId, r.eventId) == Some(BadRequest(AlreadyRegistered))
  {
    assert FindEventIn(events, r.eventId).Some?;
    assert r in regs + [r];
  }

  /** `register_for_event`: on success the one new row is the caller's,
      for `eventId`, stamped `now`, and it raises that event's count by one;
      on any refusal the store is untouched. */
  method RegisterForEvent(db: Db, current: User, eventId: int, now: int) returns (r: Result<int>)
    requires db.Valid() && current in db.users
    modifies db
    ensures db.Valid()
    ensures r.Err? <==> RegisterCheck(old(db.events), old(db.registrations), current.id, eventId).Some?
    ensures r.Err? ==> Some(r.error) == RegisterCheck(old(db.events), old(db.registrations), current.id, eventId)
    ensures r.Err? ==> db.registrations == old(db.registrations) && db.Counters() == old(db.Counters())
    ensures r.Ok? ==> r.value == old(db.nextRegistrationId)
    ensures r.Ok? ==> db.registrations == old(db.registrations) + [Registration(r.value, current.id, eventId, now)]
    ensures r.Ok? ==> db.Counters() == old(db.Counters()).(registration := old(db.nextRegistrationId) + 1)
    ensures r.Ok? ==> forall e :: e in db.events && e.id == eventId ==>
      RegisteredCount(e, db.registrations) == RegisteredCount(e, old(db.registrations)) + 1
    ensures db.users == old(db.users) && db.colleges == old(db.colleges)
    ensures db.students == old(db.students) && db.events == old(db.events)
  {
    var check := RegisterCheck(db.events, db.registrations, current.id, eventId);
    if check.Some? {
      return Err(check.value);
    }
    var row := Registration(db.nextRegistrationId, current.id, eventId, now);
    RegisterKeepsInvariants(db.events, db.registrations, row);
    forall e | e in db.events && e.id == eventId
      ensures RegisteredCount(e, db.registrations + [row]) == RegisteredCount(e, db.registrations) + 1
    {
      RegisteredCountAppend(e, db.registrations, row);
    }
    assert current.id in UserIds(db.users) by {
      var i :| 0 <= i < |db.users| && db.users[i] == current;
    }
    db.InsertRegistration(row);
    r := Ok(row.id);
  }

  /** Deleting the row at `k` of a (user, event) pair leaves no row for that pair. */
  lemma UnregisterRemovesPair(regs: seq<Registration>, k: nat)
    requires Pairwise(regs, DistinctRegistrations()) && k < |regs|
    ensures FindRegistration(RemoveAt(regs, k), regs[k].userId, regs[k].eventId).None?
  {
    var rest := RemoveAt(regs, k);
    forall x | x in rest ensures !(x.userId == regs[k].userId && x.eventId == regs[k].eventId) {
      var i :| 0 <= i < |rest| && rest[i] == x;
      var i' := if i < k then i else i + 1;
      assert rest[i] == regs[i'];
      if i' < k {
        assert DistinctRegistrations()(regs[i'], regs[k]);
      } else {
        assert DistinctRegistrations()(regs[k], regs[i']);
      }
    }
  }

  /** `unregister_from_event`: 404 when the caller has no registration for
      `eventId` (whether or not the event exists); otherwise exactly that row
      is deleted and no registration of the caller for the event remains. */
  method UnregisterFromEvent(db: Db, current: User, eventId: int) returns (r: Result<()>)
    requires db.Valid()
    modifies db
    ensures db.Valid()
    ensures r.Err? <==> FindRegistration(old(db.registrations), current.id, eventId).None?
    ensures r.Err? ==> r.error == NotFound(RegistrationMissing) && db.registrations == old(db.registrations)
    ensures r.Ok? ==>
      db.registrations == RemoveAt(old(db.registrations), FindRegistration(old(db.registrations), current.id, eventId).value)
    ensures r.Ok? ==> FindRegistration(db.registrations, current.id, eventId).None?
    ensures db.users == old(db.users) && db.colleges == old(db.colleges)
    ensures db.students == old(db.students) && db.events == old(db.events)
    ensures db.Counters() == old(db.Counters())
  {
    var found := FindRegistration(db.registrations, current.id, eventId);
    if found.None? {
      return Err(NotFound(RegistrationMissing));
    }
    var k := found.value;
    var before := db.registrations;
    RemoveAtPairwise(before, k, DistinctRegistrations());
    UnregisterRemovesPair(before, k);
    forall e | e in db.events && e.capacity.Some?
      ensures RegisteredCount(e, RemoveAt(before, k)) <= e.capacity.value
    {
      RegisteredCountRemoveAt(e, before, k);
    }
    forall x | x in RemoveAt(before, k) ensures x in before {
      var i :| 0 <= i < |RemoveAt(before, k)| && RemoveAt(before, k)[i] == x;
      assert x == before[if i < k then i else i + 1];
    }
    db.registrations := RemoveAt(before, k);
    r := Ok(());
  }

  /** `get_event_registrations`: 404 for a missing event, 403 unless the
      caller is an admin or the event's creator, otherwise exactly the
      event's registrations. */
  function GetEventRegistrations(db: Db, current: User, eventId: int): (r: Result<seq<Registration>>)
    reads db, current
    ensures db.FindEvent(eventId).None? <==> r == Err(NotFound(EventMissing))
    ensures r == Err(Forbidden) <==>
      db.FindEvent(eventId).Some? && !current.isAdmin && db.FindEvent(eventId).value.createdBy != current.id
    ensures r.Err? ==> r == Err(NotFound(EventMissing)) || r == Err(Forbidden)
    ensures r.Ok? ==> forall x :: x in r.value <==> x in db.registrations && x.eventId == eventId
  {
    match db.FindEvent(eventId)
    case None => Err(NotFound(EventMissing))
    case Some(event) =>
      if !current.isAdmin && event.createdBy != current.id then Err(Forbidden)
      else Ok(RegistrationsOf(event, db.registrations))
  }

  /** `get_my_registrations`: exactly the caller's registrations, in table order. */
  function GetMyRegistrations(db: Db, current: User): (r: seq<Registration>)
    reads db, current
    ensures forall x :: x in r <==> x in db.registrations && x.userId == current.id
  {
    Filter(db.registrations, OfUser(current.id))
  }
}
