/** `app/routers/events.py`: event creation and deletion (admin only),
    listing ordered by start time, and lookup by id. The admin gate of
    create and delete is the `get_current_admin_user` dependency, which is
    not part of this model; it appears as the precondition
    `current.isAdmin`. */
module Events {
  import opened Common
  import opened Models
  import opened Schemas

  /** `create_event`: 400 when an end time is given that is not after the
      start time, the store untouched; otherwise exactly one new event,
      created by the caller, whose fields are the request's. Every stored
      event keeps an end after its start (`Db.Valid`), and the new event
      starts with no registrations, so it is not full. */
  method CreateEvent(db: Db, current: User, data: EventCreate, now: int) returns (r: Result<Event>)
    requires db.Valid() && current in db.users && current.isAdmin
    requires ValidEventCreate(data)
    modifies db
    ensures db.Valid()
    ensures r.Err? <==> data.endTime.Some? && data.endTime.value <= data.startTime
    ensures r.Err? ==> r.error == BadRequest(EndNotAfterStart)
    ensures r.Err? ==> db.events == old(db.events) && db.Counters() == old(db.Counters())
    ensures r.Ok? ==> r.value == Event(old(db.nextEventId), data.title, data.description, data.venue,
      data.startTime, data.endTime, data.capacity, current.id, now)
    ensures r.Ok? ==> db.events == old(db.events) + [r.value]
    ensures r.Ok? ==> db.Counters() == old(db.Counters()).(event := old(db.nextEventId) + 1)
    ensures r.Ok? ==> RegisteredCount(r.value, db.registrations) == 0 && !IsFull(r.value, db.registrations)
    ensures db.users == old(db.users) && db.colleges == old(db.colleges)
    ensures db.students == old(db.students) && db.registrations == old(db.registrations)
  {
    if data.endTime.Some? && data.endTime.value <= data.startTime {
      return Err(BadRequest(EndNotAfterStart));
    }
    var row := Event(db.nextEventId, data.title, data.description, data.venue,
      data.startTime, data.endTime, data.capacity, current.id, now);
    assert current.id in UserIds(db.users) by {
      var i :| 0 <= i < |db.users| && db.users[i] == current;
    }
    db.InsertEvent(row);
    r := Ok(row);
  }

  /** A new event whose capacity passed the schema bound (at least 1) is
      not full while it has no registrations. */
  lemma FreshEventNotFull(e: Event, regs: seq<Registration>)
    requires e.capacity.None? || e.capacity.value >= 1
    requires forall x :: x in regs ==> x.eventId != e.id
    ensures !IsFull(e, regs)
  {
    assert RegisteredCount(e, regs) == 0;
  }

  predicate SortedByStart(s: seq<Event>) {
    forall i, j :: 0 <= i < j < |s| ==> s[i].startTime <= s[j].startTime
  }

  /** `e` placed into the start-ordered `s` after every event starting earlier. */
  function InsertByStart(e: Event, s: seq<Event>): (r: seq<Event>)
    requires SortedByStart(s)
    ensures SortedByStart(r)
    ensures multiset(r) == multiset(s) + multiset{e}
    ensures forall x :: x in r <==> x == e || x in s
  {
    if s == [] then [e]
    else if e.startTime <= s[0].startTime then [e] + s
    else
      var rest := InsertByStart(e, s[1..]);
      assert forall x :: x in rest ==> s[0].startTime <= x.startTime;
      var r := [s[0]] + rest;
      assert s == [s[0]] + s[1..];
      assert multiset(r) == multiset{s[0]} + multiset(rest);
      r
  }

  /** `ORDER BY start_time`: a start-ordered permutation of the table. */
  function SortByStart(s: seq<Event>): (r: seq<Event>)
    ensures SortedByStart(r)
    ensures multiset(r) == multiset(s)
  {
    if s == [] then []
    else
      assert s == [s[0]] + s[1..];
      InsertByStart(s[0], SortByStart(s[1..]))
  }

  /** `list_events`: at most `limit` events, in start-time order, taken from
      the start-ordered table after its first `skip`. */
  function ListEvents(db: Db, skip: nat := DefaultSkip, limit: nat := DefaultLimit): (r: seq<Event>)
    reads db
    ensures |r| <= limit && SortedByStart(r)
    ensures |r| == if skip >= |db.events| then 0 else Min(limit, |db.events| - skip)
    ensures forall i :: 0 <= i < |r| ==> r[i] == SortByStart(db.events)[skip + i]
    ensures forall i :: 0 <= i < |r| ==> r[i] in db.events
  {
    var sorted := SortByStart(db.events);
    var page := Page(sorted, skip, limit);
    forall i | 0 <= i < |page| ensures page[i] in db.events {
      assert page[i] in multiset(sorted);
    }
    page
  }

  /** `get_event`: 404 for an unknown id. */
  function GetEvent(db: Db, eventId: int): (r: Result<Event>)
    reads db
    ensures r.Err? <==> eventId !in EventIds(db.events)
    ensures r.Err? ==> r.error == NotFound(EventMissing)
    ensures r.Ok? ==> r.value in db.events && r.value.id == eventId
  {
    match db.FindEvent(eventId)
    case None => Err(NotFound(EventMissing))
    case Some(e) => Ok(e)
  }

  /** `delete_event`: 404 for an unknown id; otherwise the event and all its
      registrations go (`Db.DeleteEvent`), and nothing else changes. */
  method DeleteEvent(db: Db, current: User, eventId: int) returns (r: Result<()>)
    requires db.Valid() && current.isAdmin
    modifies db
    ensures db.Valid()
    ensures r.Err? <==> eventId !in old(EventIds(db.events))
    ensures r.Err? ==> r.error == NotFound(EventMissing)
    ensures r.Err? ==> db.events == old(db.events) && db.registrations == old(db.registrations)
    ensures r.Ok? ==> db.events == Filter(old(db.events), EventNot(eventId))
    ensures r.Ok? ==> db.registrations == Filter(old(db.registrations), NotOfEvent(eventId))
    ensures r.Ok? ==> eventId !in EventIds(db.events)
    ensures r.Ok? ==> forall x :: x in db.registrations ==> x.eventId != eventId
    ensures db.users == old(db.users) && db.colleges == old(db.colleges)
    ensures db.students == old(db.students) && db.Counters() == old(db.Counters())
  {
    if db.FindEvent(eventId).None? {
      return Err(NotFound(EventMissing));
    }
    db.DeleteEvent(eventId);
    forall i | 0 <= i < |db.events| ensures db.events[i].id != eventId {
      assert db.events[i] in db.events;
    }
    r := Ok(());
  }
}
